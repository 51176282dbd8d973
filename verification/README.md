# heaphttpd: verified models of its protocol cores

heaphttpd is a web server and proxy written in C++. This project models the parts of it where octets change
form or hands: the chunked and Content-Length relays of the proxy, the HTTP/1 request intake, HPACK and the
HTTP/2 connection, the hand-off of sessions to worker threads, the variables that processes share through
files, the size-accounted caches, and the multipart, URL and FastCGI codecs. Each Dafny file is one component.
Code that changes state is a class whose methods are proved equal to a specification function of the old state;
the promises of the system are then proved about those functions, over every input, every segmentation of a
stream or every run.

`dafny verify dfyconfig.toml` checks everything.

## How the models are built

- Octets are `int`s below 256. Integers of 16, 32 and 64 bits wrap where the source wraps.
- A socket is an argument (what a read finds) or a record (what was sent, and how much the peer still takes).
- A buffer that the source compacts with `memmove` in a relay is an `array`; elsewhere the valid part of a
  buffer is a `seq` field.
- Threads and processes are state machines over atomic steps, with a program counter for each thread.
- `FileCache.MemoryCache` stands for the file cache and for the tunneling cache (`src/cache.cpp:913-1032`), whose
  branches are the same. Its counter is the sum of the lengths modulo 2^64, hence the sum itself as long as that
  fits 64 bits.
- Contracts assumed, as hypotheses of the lemmas that need them: Huffman coding has an inverse
  (`Huffman.Inverse`), the static table holds lower-case names, fewer than 63 of them, and a `:status` entry
  (`TableOk`). `strtrim`, `strcut`, `strcasecmp`, `memchr` and `sscanf` with `%x` or `%[0-9]` are specification
  functions.

## Where the code departs from its intent

The code is kept as it is.  For each item the theorem that describes the departure is named, and what it gives:
the exact condition under which the intent holds, where there is one that a caller could check; otherwise an input
for which it fails, or what the code does instead.

- `src/http_client.cpp:32-39` copies at most 31 characters of a chunk-size line. Exact for one size
  (`SizeReadRight`): it is read right if and only if its text has at most 31 characters. An input for a whole body
  (`LongSizeMisread`): a legal message with one chunk of 16 octets, of which three are relayed before the relay
  reports the end. For whole bodies the limit is sufficient only: `LongSizeUnnoticed` gives the bodies with a longer
  text that go out whole all the same. Sizes of 2^32-2 and more overflow the counter and are outside the grammar
  modelled.
- `src/http_client.cpp:531-535` and `:566-569` compare the length only at the end of a read. Exact
  (`EndsOnlyAtBoundary`), from the first octet of the header on: the relay ends if and only if some read boundary falls
  on the announced length; with length 0 it ends with the header.
- `src/http_client.cpp:290`, `:519` and `:556` copy every read into a cache buffer that has one octet more than the
  announced length. Exact (`CopyStaysInside`): the copy stays inside if and only if some read boundary falls on the
  announced length or no more octets come than the buffer holds.
- `src/service.cpp:651-662` locks the pool mutex and never unlocks it. Exact
  (`HandoffStopsExactlyAfterIdleFlush`): the mutex is lost in exactly the runs that enter this flush, and none of these
  hands out a session again.
- `src/hpack.cpp:28` adds modulo 2^32. Exact (`DecodesModulo`): the number decoded is right if and only if the
  encoded one fits 32 bits. Line 23 shifts by 32 or more after five continuation octets: such inputs are `Undefined`.
- `src/hpack.cpp:57` wants one spare octet behind a continued number: what the code does (`Fits`).
- `src/hpack.cpp:80-83` and `:477-500` do not look at the block's end: the number of a string literal is read up to
  256 octets on, and the string as far as its length says. The model does not follow the code there: it answers
  false for a field cut off by the block's end (see `Parse` below).
- `src/http2.cpp:824-828` and `:865-870` parse each fragment of a header block alone, while section 4.3 of RFC 7540
  lets a block be cut anywhere. Exact for a parser that stops at the fragment's end (`FragmentRead`,
  `AccumulatesExactly`): the fragments give the headers of the block if and only if the cut falls behind a whole field.
  The source reads on behind a fragment that is cut inside a field, and may then answer 0 with a wrong header.
- `src/hpack.cpp:464` keeps the four raw bits of a name index without indexing. Exact (`ResolvesExactly`): the field
  is resolved right if and only if the index is at most 15, or its name happens to be that of static entry 15.
- `lowercase` (`src/util/general.h:1041-1050`) puts a NUL at the end of a new name on the wire. Exact
  (`BuildThenPeerDecodes`): a peer that keeps all octets of a string decodes the fields meant if and only if every
  line's name has an entry in the static table.
- `src/hpack.cpp:153-164` does not move on from an empty line, so `build` stops there. Exact (`BuildTakesAll`): all
  lines of a text are built if and only if nothing but blanks stands behind its first empty line.
- `src/http2.cpp:1308-1329` goes on with an empty name when an index is in neither table, which section 2.3.3 of RFC 7541
  makes an error: what the code does (`OutOfTables`).
- `src/hpack.cpp:466-473` refuses a dynamic table size update, which section 4.2 of RFC 7541 allows at the beginning of a
  block: what the code does, wherever it comes (`SizeUpdateRefused`).
- `src/http2.cpp:1449` does not store a field with an empty name. Exact (`TablesAgree`): the peer's dynamic table is
  a prefix of the server's if and only if it holds no empty name.
- `src/http2.cpp:1249` adds an octet count to an `HTTP2_Frame*`, which scales it by nine. The reader is modelled
  with the octet offset that is meant. Exact for the copies as written, over all calls of a connection
  (`HeaderCopiesAsWritten`): they stay inside the header object if and only if no call that brings octets finds part
  of a header there; by `PartEndsStream` the octets so far then end inside a frame header.
- `src/http2.cpp:1293` drops the answer of the recursive call: what the code does (`CallDispatches`), namely ask to
  close only for a call's first frame.
- `src/http2.cpp:1594` and `:1626` write a length of 24 bits, while `src/http2.cpp:922` takes any maximum frame size
  from the peer. Exact (`FramesReadBack`): the octets sent are the frames meant if and only if every payload is below
  2^24.
- `src/http2.cpp:1649` takes only the data off the peer's window, while section 6.9.1 of RFC 7540 counts padding and pad
  length too. `PaddingUncounted`: every padded frame takes two to nine octets more, so a run that uses up window and
  grants goes over them. Exact for content the window is wide enough for (`WindowKept`): the payloads stay inside if and
  only if `Cost`, the content with its padding, does.
- `src/http2.cpp:676-681` refuses everything but resets, priorities and window updates behind END_STREAM, so also the
  rest of a header block (`SplitHeaderRefused`), which section 6.2 of RFC 7540 allows there; and
  `src/http2.cpp:969-974` takes DATA only on an open stream, so no END_STREAM that comes behind the answer
  (`LateEndRefused`). Exact (`RequestTaken`): of the frames a client may send for a request all are accepted if and
  only if every part of the header block parses, no part comes behind END_STREAM (HEADERS with END_STREAM has
  END_HEADERS, `BlockInTimeExactly`), and no DATA comes behind the end of the answer. `AcceptedExactly` says it frame by
  frame for any request, and `ClosedExactly` when the stream closes.
- `src/http.cpp:873-893` takes the body of a POST over HTTP/2 as complete when the Content-Length is reached, or a form
  is past 4 MB, and cuts a form at a NUL in each frame; a POST is answered by nothing else. Exact (`PostCloses`): its
  stream closes if and only if the frame with END_STREAM is the first whose push says so. Exact
  (`PostAnsweredWhole`), when the Content-Length is that of the body: it closes with the whole body answered if and only
  if a form is NUL-free, the octets in front of the last frame are fewer than all, and those of a form no more
  than 4 MB.
- `src/cache.cpp:795` assigns where it should compare, and reading an entry's data sets its access time
  (`src/cache.h:97-101`). What the code does (`VictimExactly`): the victim is the first shortest entry counted from
  the last one between whose two locks the second turned, whenever any was last used.
- `src/cache.cpp:858-863` uses the victim without looking whether there is one. Exact (`Push`): there is none if and
  only if the map is empty and the budget is 0.
- `src/cache.cpp:731` keeps the local variable on equal create times. An input (`EqualTimesDiverge`): two processes
  that push a name within one second can disagree for good. Sufficient (`ProcessesConverge`): they agree when the
  latest pushes of each name gave it one value.
- `src/formdata.h:31-33` and `:44-58` know a delimiter only with the line break right behind it, and take what stands
  in front of the first one for a part. Exact (`ScanUndoesCompose`), for any body of section 5.1.1 of RFC 2046: the
  segments are those of the parts if and only if there is no preamble, no padding behind a boundary, and a line break
  right behind the last delimiter. `src/formdata.h:64-72` waits for a blank line, which a part without header fields has
  only when it is empty: of right segments, header and data are handed out right if and only if the part has header
  fields or no data.
- `src/heapapi.cpp:129-162` pairs octets above 0x7F. Exact (`DecodeUndoesEncode`): decoding gives the same C string
  always, and the same `std::string` if and only if the run of such octets at the end has even length.
- `src/heapapi.cpp:20-56` makes another pass over the blanks in front of a text only when the last one began with a space.
  Exact (`TrimExactly`): they all go if and only if each pass but the last begins with a space; those behind always go.
- `src/heapapi.cpp:219-250` never decodes the name of a field, drops a field without a name and gives its value to the
  next, and keeps the last decoded value in `value2`. Exact (`FieldsRead`), for fields whose names and values are
  encoded: names are read right if and only if every octet of each stands for itself in the encoding, values if and only
  if no empty value comes after one that is not empty, and all fields only if none is nameless.
- `src/fastcgi.cpp:80-91` skips entries with a string of exactly 128 octets, and the header counts no more than
  65535 octets while all are sent. Exact (`ParamsRead`, `RequestRead`). A parameter record whose entries are all
  skipped is empty, which already ends the parameter stream.
- `src/http.cpp:935` has no branch for a URL-encoded body of 4 MB or more. Exact (`DoneExactly`): such a request is
  never completed. `src/http.cpp:444-446` and `:940-941` append C
  strings. Exact (`RequestReceived`): a request is collected right if and only if its header, and the body of a form, are
  NUL-free.

## Model

| member | source | states |
|---|---|---|
| `HexText.ScanDigits` | src/http_client.cpp:32-39 | `%x` reads of a size text its hexadecimal value, when a chunk extension or the cut ends the digits and the value fits 32 bits |
| `HexText.DigitsAre` | src/http_client.cpp:39-39 | the hexadecimal digits and their values, in both letter cases, spelled out |
| `HexText.ScanForms` | src/http_client.cpp:39-39 | `%x` of blanks, a sign, `0x`, digits and anything else: the value, negated in 64 bits by a minus sign, in 32 bits |
| `ChunkRelay.Tunnel.ClientSend` | src/http_client.cpp:44-47 | a send that succeeds appends all of its data; one that fails appends a beginning of it and the connection is known to be broken |
| `ChunkRelay.HttpChunk.constructor` | src/http_client.cpp:10-15 | a relay starts in front of a size line, with nothing of a chunk seen |
| `ChunkRelay.RunHeader` | src/http_client.cpp:22-60 | on any octets buffered in front of a chunk: without CRLF nothing happens, a line that is no number ends the relay with nothing sent, any other goes out and its chunk, or the trailer, is next |
| `ChunkRelay.Expected` | src/http_client.cpp:41-42 | behind a size line its octets and two are expected, in 32 bits, so that the two largest sizes pass for chunks of none and one |
| `ChunkRelay.HttpChunk.SendContent` | src/http_client.cpp:128-149 | what is buffered of the chunk, and no more, goes out; the rest is moved to the front; the chunk ends exactly when its last octet went out |
| `ChunkRelay.HttpChunk.SendFooter` | src/http_client.cpp:150-176 | the trailer goes out through its blank line and ends the response; without a blank line nothing happens and more is asked for |
| `ChunkRelay.HttpChunk.SendSizeLine` | src/http_client.cpp:41-54 | a data chunk's size line goes out with its CRLF and the counter becomes data plus CRLF; that of the last chunk goes out without it |
| `ChunkRelay.HttpChunk.HeaderTurn` | src/http_client.cpp:22-127 | the turn sends and leaves exactly what `Run` says of the octets buffered, ends where `Run` ends, and otherwise makes the buffer smaller |
| `ChunkRelay.HttpChunk.ContentTurn` | src/http_client.cpp:128-149 | the same for a turn inside a chunk; it makes the buffer smaller or leaves the chunk |
| `ChunkRelay.HttpChunk.Turn` | src/http_client.cpp:21-177 | one pass of the loop refines one unfolding of `Run` in each phase, and a measure decreases |
| `ChunkRelay.HttpChunk.Processing` | src/http_client.cpp:19-179 | one call on an array sends, leaves in place and answers exactly what `Run` says; if the client's connection breaks, what was sent is a beginning of that |
| `ChunkedBody.NothingLost` | src/http_client.cpp:19-179 | for any octets: output followed by leftover is the input |
| `ChunkedBody.StepSplit` | src/http_client.cpp:22-127 | a size line or trailer that is complete is read the same when more octets follow; one that is not changes nothing |
| `ChunkedBody.SplitInsensitive` | src/http_client.cpp:19-179 | from any state and for any octets, two reads do exactly what one read of both does |
| `ChunkedBody.AnySegmentation` | src/http_client.cpp:19-179 | any list of reads does what one read of their concatenation does |
| `ChunkedBody.SizeLineEnd` | src/http_client.cpp:26-36 | the first CRLF found is the one that ends the size line, extension included |
| `ChunkedBody.TrailerEnd` | src/http_client.cpp:153-170 | the first blank line behind the last chunk is the end of the trailer, for any trailer lines |
| `ChunkedBody.SizeReadRight` | src/http_client.cpp:32-39 | the relay reads a chunk's size right if and only if its text has at most 31 characters |
| `ChunkedBody.LongSizeMisread` | src/http_client.cpp:19-179 | a legal message of one chunk of 16 octets with a size text of 32 characters: the relay sends the size line and three octets, and reports the end |
| `ChunkedBody.LongSizeUnnoticed` | src/http_client.cpp:32-127 | a body whose first size text starts with 31 zeros is sent whole all the same when its first blank line is its end |
| `ChunkedBody.WholeBody` | src/http_client.cpp:19-179 | a body in the format of section 4.1 of RFC 7230, with size texts of at most 31 characters, is sent whole and its end reported at its last octet, whatever follows |
| `ChunkedBody.NoEarlyEnd` | src/http_client.cpp:19-179 | as long as one octet of such a body is missing, more is asked for |
| `ChunkedBody.BodyInAnyReads` | src/http_client.cpp:19-179 | for such a body and any reads the end is reported exactly when it is complete, the output is then the body, and output plus leftover is always the input so far |
| `ContentRelay.HttpClient.constructor` | src/http_client.cpp:182-221 | a client starts with an empty buffer in front of the header |
| `ContentRelay.HttpClient.Append` | src/http_client.cpp:467-483 | a read is appended to the buffered octets, which survive the buffer's growth |
| `ContentRelay.HttpClient.SendBody` | src/http_client.cpp:518-537 | all that is buffered goes to the client, into the cache copy and into the count; the relay completes when the count is the announced length; if the connection breaks, what was sent is a beginning of that |
| `ContentRelay.HttpClient.StartBody` | src/http_client.cpp:489-538 | behind the header's blank line the body starts with what is left of the read: chunked, empty or counted |
| `ContentRelay.HttpClient.Processing` | src/http_client.cpp:466-575 | one read on the growing buffer has the effect `Deliver` gives it, whichever part of the response the relay is in |
| `ContentRelay.HttpClient.Close` | src/http_client.cpp:223-237 | the destructor puts the copy into the cache only if caching is on, the body is complete and it is not empty |
| `RelayedResponse.HeaderRead` | src/http_client.cpp:484-542 | a read before the header's end leaves everything buffered; the read that completes it starts the body at the octet behind the blank line |
| `RelayedResponse.ChunkedResponse` | src/http_client.cpp:466-575 | for every chunked response with such a body and every segmentation: the relay ends exactly with the last octet, the client has the rewritten header and the body, at any time before all of it but what is buffered, and nothing is cached |
| `RelayedResponse.ContentResponse` | src/http_client.cpp:466-575 | for every Content-Length response and every segmentation: the relay ends exactly with the last octet, what goes into the cache is the body the client got, and nothing goes there before |
| `RelayedResponse.EndsOnlyAtBoundary` | src/http_client.cpp:484-572 | from the first octet on, for a header and any octets behind it, in any reads: the relay ends if and only if some read boundary falls on the announced length, or with the header when that is 0 |
| `RelayedResponse.CopyStaysInside` | src/http_client.cpp:517-558 | from the first octet on: the cache copy never exceeds its buffer if and only if some read boundary falls on the announced length or no more octets come than the buffer holds |
| `RelayedResponse.EverythingRelayed` | src/http_client.cpp:466-575 | for a header and any octets behind it, in any reads, not chunked: nothing is sent before the header is complete; then, as long as more is asked for, the client has the rewritten header and every octet behind it, and at the end those up to the announced length, which is what the cache then gets; without a length there is no end and nothing is cached |
| `RelayedResponse.RefusedHeader` | src/http_client.cpp:484-489 | a header that `parse` refuses ends the relay with nothing sent |
| `WorkerHandoff.StepKeepsInv` | src/service.cpp:459-494 | every atomic step of the dispatcher or of a worker keeps mutual exclusion, the count of the queue and the order of sessions |
| `WorkerHandoff.QueueCounted` | src/service.cpp:735-752 | in every run: queue length is the semaphore, the workers between wait and pop and a push not yet posted, so a worker about to pop never finds the queue empty |
| `WorkerHandoff.ArrivalOrder` | src/service.cpp:642-768 | in every run the sessions received are those handed out, queued, overflowing and in hand, in this order: none lost, doubled or overtaken |
| `WorkerHandoff.MutualExclusion` | src/service.cpp:471-477 | no two threads are between lock and unlock of the pool mutex |
| `WorkerHandoff.HandoffStopsExactlyAfterIdleFlush` | src/service.cpp:649-662 | the mutex is lost in exactly the runs that enter the timeout's flush, and then no session is handed out again |
| `WorkerHandoff.HandedAreHandled` | src/service.cpp:468-489 | in every run the sessions handed out are, each exactly once, in the hands of the thread that popped them, being handled, or finished |
| `WorkerHandoff.HandlesWhatItPopped` | src/service.cpp:473-485 | the session a thread handles is the queue's front when that thread last popped |
| `WorkerHandoff.SomeCanGoOn` | src/service.cpp:459-494 | no deadlock: until all is at rest some thread can go on, unless the mutex was lost |
| `WorkerHandoff.BringingOnEnds` | src/service.cpp:459-494 | what threads do with what they have comes to an end, and no thread leaves by it |
| `WorkerHandoff.AllCanBeFinished` | src/service.cpp:642-768 | from every state reached without the timeout's flush and with a thread left, all sessions received but those in the overflow queue can be finished with no more accepted |
| `WorkerHandoff.OverflowCanBeFinished` | src/service.cpp:718-768 | with one more session accepted those in the overflow queue can be finished too |
| `WorkerHandoff.IdleFlushEmpties` | src/service.cpp:649-662 | the timeout's flush brings the whole overflow queue, in order, into the shared queue, each session posted |
| `PrefixInteger.DecodeInteger` | src/hpack.cpp:5-34 | on an array range: the value, length, refusal or end of input of `Decode`, whose values are characterised by the lemmas below |
| `PrefixInteger.EncodeContinuation` | src/hpack.cpp:50-60 | the groups of seven bits are written in order, nothing in front of them is touched, and the last one needs a spare octet behind it |
| `PrefixInteger.EncodeInteger` | src/hpack.cpp:36-63 | writes the representation if it fits with its spare octet, and answers its length; otherwise -1 |
| `PrefixInteger.FitsExactly` | src/hpack.cpp:36-63 | one octet of room for a value the prefix holds, and for any other one, one for each seven bits of the rest, and one that stays unused |
| `PrefixInteger.DecodesModulo` | src/hpack.cpp:15-33 | for any input: an accepted value is the value of section 5.1 of RFC 7541 modulo 2^32, hence right if and only if that is below 2^32 |
| `PrefixInteger.AcceptsExactly` | src/hpack.cpp:18-30 | of encodings with at most five continuation octets exactly those whose fifth is above 15 are refused |
| `PrefixInteger.EncodedRest` | src/hpack.cpp:48-60 | the continuation written for a value stands for it, has the emitted length, and is never refused |
| `PrefixInteger.RoundTrip` | src/hpack.cpp:5-63 | for every 32-bit value, prefix, flag bits and trailing octets: decoding gives the value and the exact emitted length |
| `Hpack.ReadStringLiteral` | src/hpack.cpp:65-87 | a Huffman-coded string literal is read back as the C string it was written for, with its exact length, whatever follows |
| `Hpack.ChoiceInTable` | src/hpack.cpp:259-281 | the pass over the static table: the choice is a full match if there is one, else an entry of that name, and a new name only if the table has none |
| `Hpack.HpackObject.constructor` | src/hpack.cpp:106-110 | nothing is decoded yet |
| `Hpack.HpackObject.Search` | src/hpack.cpp:259-281 | the loop with its early exit ends with the choice `ChoiceInTable` characterises |
| `Hpack.HpackObject.BuildLine` | src/hpack.cpp:165-394 | a line is written as the representation that `FieldReads` reads back |
| `Hpack.HpackObject.Build` | src/hpack.cpp:140-403 | one pass over the text writes the representations of its lines in order, up to the first empty line |
| `Hpack.HpackObject.Parse` | src/hpack.cpp:405-593 | the headers of the block are appended to those decoded before; the answer says whether the block was read to its end |
| `Hpack.BuildAt` | src/hpack.cpp:151-164 | at each separator the builder's pass takes the line since the last one, and goes on behind it |
| `HpackRoundTrip.FieldReads` | src/hpack.cpp:165-394 | whatever follows it, the representation of a field is parsed as one header and to its exact end |
| `HpackRoundTrip.BlockReads` | src/hpack.cpp:140-593 | a built block, followed by anything, is parsed as its headers and then what follows |
| `HeaderLines.LineRead` | src/hpack.cpp:183-252 | a status line is taken for `:status` and its code, and a line of a name, a colon, blanks and a value for that name and value, pseudo-headers included |
| `HeaderLines.LinesRead` | src/hpack.cpp:151-164 | the lines of a header text as written are taken in order, each for the field it was written for |
| `HeaderLines.AnyStatus` | src/hpack.cpp:183-193 | any line that begins with the version, in any letter case, is a status line, its code the first digits behind at least one other character, or empty |
| `HeaderLines.WrittenThenParsed` | src/hpack.cpp:140-593 | for any status lines and fields written into a header text: parsing what `build` emits gives one header for each, in order, resolving to the lower-case name and to the value written, the letter case of which changes only on a full match in the static table |
| `HeaderLines.WrittenThenDecoded` | src/hpack.cpp:140-403 | a peer decodes it to the fields written if and only if every name is in the static table |
| `HeaderLines.LettersLowered` | src/util/general.h:1041-1050 | the letters A to Z become a to z, and nothing else changes |
| `HpackRoundTrip.BuildThenParse` | src/hpack.cpp:140-593 | for any text whatever: one header for each line the builder takes, standing for what the line is taken for |
| `HpackRoundTrip.FragmentsAccumulate` | src/hpack.cpp:405-593 | when a first fragment is read to its end, the second one adds the headers that the whole block has behind it |
| `HpackRoundTrip.FragmentRead` | src/hpack.cpp:405-593 | for any block and any cut, and a parser that stops at the end of what it is given: the first fragment is read to its end if and only if the cut falls behind a whole field |
| `HpackRoundTrip.AccumulatesExactly` | src/http2.cpp:855-881 | for such a parser a block cut in two gives, fragment by fragment, the headers of the whole if and only if the cut falls behind a whole field |
| `HpackRoundTrip.SizeUpdateRefused` | src/hpack.cpp:466-473 | a dynamic table size update at any field boundary ends the parsing with an error, behind the headers in front of it |
| `HpackPeer.RepReads` | src/hpack.cpp:165-394 | a decoder by section 6 of RFC 7541 that keeps all octets of a string reads each representation built, to its exact end |
| `HpackPeer.ParsersAgree` | src/hpack.cpp:405-593 | on any octets, unless an index passes 2^32: the server's parser reads a field if and only if section 6 of RFC 7541 has one there, of the same length and representation, strings cut at a NUL and an index without indexing to four bits |
| `HpackPeer.RepsRead` | src/hpack.cpp:140-403 | such a decoder reads a built block as one representation for each line |
| `HpackPeer.BuildThenPeerDecodes` | src/util/general.h:1041-1050 | for every header text and any dynamic table of the peer: one field for each line, and these are the fields meant if and only if every name has an entry in the static table; any other name has a NUL behind it |
| `HpackPeer.BuildTakesAll` | src/hpack.cpp:151-164 | the lines built are all non-blank lines of the text if and only if only blanks stand behind the first empty line |
| `HpackPeer.ChosenExactly` | src/hpack.cpp:259-281 | a field is sent as an index if and only if the table has it up to letter case, with an indexed name if and only if it else has the name, and with a new name if and only if it has not |
| `HeaderTable.DynamicTable.constructor` | src/http2.cpp:1308-1329 | the table starts empty |
| `HeaderTable.DynamicTable.Shift` | src/http2.cpp:1451-1461 | the loop moves every entry that stays one key up, in place, at most 4095 of them |
| `HeaderTable.DynamicTable.Insert` | src/http2.cpp:1444-1465 | the integer-keyed map holds, newest first at keys 62 and up, the field in front of the 4095 newest before it; a field without a name changes nothing |
| `HeaderTable.DynamicTable.Find` | src/http2.cpp:1312-1319 | an index past the static table finds the entry of that age, or none |
| `HeaderTable.PeerIsNewest` | src/http2.cpp:1444-1465 | the octet-limited table of sections 4.1 and 4.4 of RFC 7541 always holds the newest insertions, within 4096 octets |
| `HeaderTable.PeerIsLongest` | src/http2.cpp:1444-1465 | that table is the longest beginning of the newest insertions whose size by section 4.1 is at most 4096 |
| `HeaderTable.CodeIsNewestNamed` | src/http2.cpp:1449-1463 | the server's table holds the newest insertions that have a name, up to 4096 of them |
| `HeaderTable.TablesAgree` | src/http2.cpp:1444-1465 | after any insertions the peer's table is a prefix of the server's, so every index means the same entry, if and only if the peer's holds no empty name |
| `HeaderDecode.HeaderTranslator.constructor` | src/http2.cpp:1301-1307 | a connection starts with an empty dynamic table |
| `HeaderDecode.HeaderTranslator.Resolve` | src/http2.cpp:1308-1329 | an index is looked up in the table it belongs to; the value comes from there only for an indexed field |
| `HeaderDecode.HeaderTranslator.Translate` | src/http2.cpp:1301-1466 | the loop over a block's headers resolves and inserts in order, as `ServerDecode` says |
| `HeaderDecode.EntriesIndexed` | src/http2.cpp:1308-1329 | each entry is found at its index, static ones from 1 on and dynamic ones, newest first, behind them, and no other index finds one |
| `HeaderDecode.InsertedFoundAgain` | src/http2.cpp:1444-1465 | a named field sent with incremental indexing is found at index 62 next |
| `HeaderDecode.OutOfTables` | src/http2.cpp:1308-1329 | an index in neither table leaves the field without a name and is no error |
| `HeaderDecode.BlockRefused` | src/http2.cpp:824-828 | a connection ends in an error if and only if some block cannot be read |
| `HeaderDecode.WireReads` | src/hpack.cpp:405-593 | every representation a peer may send, plain or Huffman coded, is parsed to its exact end |
| `HeaderDecode.WireBlockReads` | src/hpack.cpp:405-593 | a block of such representations is parsed into one header for each |
| `HeaderDecode.ResolvesExactly` | src/hpack.cpp:460-464 | a representation is resolved as the peer means it if and only if a name index without indexing is at most 15 or names the name of static entry 15 |
| `HeaderDecode.ListsAgree` | src/http2.cpp:1301-1466 | over a list of representations the server decodes the fields the peer means, and the tables keep agreeing |
| `HeaderDecode.BlocksDecode` | src/http2.cpp:1301-1466 | from any tables that agree, any blocks: both sides' tables threaded from block to block, every block decoded to the fields meant |
| `HeaderDecode.ConnectionDecodes` | src/http2.cpp:1301-1466 | over a whole connection, block after block, whatever the peer's choice of indexing and string coding, the octets are decoded to the fields they mean by RFC 7541 |
| `FrameAssembly.Http2Reader.constructor` | src/http2.cpp:1228-1231 | a reader waits for a frame header |
| `FrameAssembly.Http2Reader.TakeFrame` | src/http2.cpp:1234-1291 | a pass appends what the socket held and dispatches at most one frame, as `OnePass` says |
| `FrameAssembly.Http2Reader.AsyncProcessing` | src/http2.cpp:1233-1298 | a call dispatches, keeps and answers what `Process` says, through its recursion, when whether a frame is refused depends on it and on all frames before it |
| `FrameAssembly.PassDispatches` | src/http2.cpp:1244-1291 | a pass dispatches a frame exactly when one is complete, and then it is the first frame of what is buffered |
| `FrameAssembly.FramesAppend` | src/http2.cpp:1233-1298 | frames that are complete stay the same when more octets arrive |
| `FrameAssembly.FramesCover` | src/http2.cpp:1233-1298 | the octets of the frames followed by the leftover are the stream |
| `FrameAssembly.CallDispatches` | src/http2.cpp:1233-1298 | a call dispatches all complete frames of section 4.1 of RFC 7540 in what it looked at, leaves none buffered, and asks to close only if its first frame was refused |
| `FrameAssembly.StreamDispatched` | src/http2.cpp:1233-1298 | over any calls and arrivals the frames dispatched are those of the stream, and no complete frame stays buffered |
| `FrameAssembly.CallInBounds` | src/http2.cpp:1244-1262 | the copies of a call as written stay inside the header object if and only if it does not find part of a header there when octets come |
| `FrameAssembly.HeaderCopiesAsWritten` | src/http2.cpp:1249-1250 | over all calls of a connection the copies as written stay inside if and only if no call that brings octets finds part of a header |
| `FrameAssembly.PartEndsStream` | src/http2.cpp:1244-1262 | a reader that holds part of a header has looked at a stream that ends inside a frame header, and holds just what is behind the last frame |
| `FrameAssembly.SplitGoesAstray` | src/http2.cpp:1249-1250 | a header that comes in two calls is enough for a copy to go astray |
| `DataFrames.DataSender.constructor` | src/http2.cpp:1558-1567 | nothing has been sent |
| `DataFrames.DataSender.SendContent` | src/http2.cpp:1558-1674 | the loop puts out the octets of the frames of `Send`, each with its 24-bit length, type, flags and identifier, and of a frame whose send fails a beginning; with its count and ending, for any window updates while it waits |
| `DataFrames.FrameCarries` | src/http2.cpp:1573-1644 | stripping a frame by section 6.1 of RFC 7540 gives its data; its payload fits the maximum frame size; its padding is 1 to the padding unit |
| `DataFrames.ContentRecovered` | src/http2.cpp:1558-1674 | for any run: the frames strip to exactly the content sent so far, no payload exceeds the size in force, the data never exceed window and grants, and a good end means all content |
| `DataFrames.BrokenIsBeginning` | src/http2.cpp:1642-1661 | a run whose send failed has put out its frames and of the next one a beginning as long as the connection took |
| `DataFrames.FramesReadBack` | src/http2.cpp:1594-1629 | cutting the octets by section 4.1 of RFC 7540 gives back the frames, with nothing left over, if and only if every payload is below 2^24 |
| `DataFrames.ContentFromOctets` | src/http2.cpp:1558-1674 | for any run with frame sizes the protocol allows: cutting the octets sent into frames and stripping these gives the content sent so far; each header says DATA, this stream, and no flag but PADDED, that when the frame size in force leaves room, so no frame of content ends the stream |
| `DataFrames.FramesFollowFlow` | src/http2.cpp:1568-1672 | frame by frame, for any run: each carries as much as content, window and frame size left allow, and a window that is used up is replaced by what was granted, and the frame size by what was set, while waiting |
| `DataFrames.PaddingUncounted` | src/http2.cpp:1584-1649 | each padded frame takes two to nine octets more of the peer's window than are counted, so a run that uses up window and grants has gone over them |
| `DataFrames.WindowKept` | src/http2.cpp:1568-1649 | what the payloads of sent content take of a window wide enough for the content is its `Cost` with padding, known before it is sent |
| `DataFrames.OpenWindowFinishes` | src/http2.cpp:1568-1672 | on a working connection all content is sent, within as many passes as it has octets and one, when the window is wide enough or the peer opens it whenever it is closed |
| `StreamState.Http2Stream.constructor` | src/http2stream.cpp:101-101 | a stream is created idle |
| `StreamState.Http2Stream.Note` | src/http2.cpp:844-848 | each act changes the state as `After` says and is recorded |
| `StreamState.Http2Stream.Send` | src/http2.cpp:1708-1715 | sending a header opens the stream, sending the end closes the local side |
| `StreamState.Http2Stream.SendAll` | src/http2.cpp:1552-1552 | a response's parts act in order |
| `StreamState.Http2Stream.ProtParse` | src/http2.cpp:657-1077 | a frame acts on its stream, or is refused, as `Handle` says, the answer sent while it is handled before its END_STREAM; a reset erases the stream |
| `StreamState.ClosedOnlyIf` | src/http2.cpp:816-853 | in every run a closed stream was reset or END_STREAM went both ways |
| `StreamState.EndsInAnyOrder` | src/http2.cpp:844-848 | both ends close a stream in either order, whatever was before, when nothing but body octets comes between them |
| `StreamState.RunRead` | src/http2.cpp:816-1018 | over any run the stream's acts are those of the accepted frames read off their fields: HEADERS opens, the frame that completes the block sends its answer in order, DATA delivers its octets and sends its answer, END_STREAM comes last |
| `StreamState.OneFrameRequest` | src/http2.cpp:816-851 | a request of one HEADERS frame is answered between its opening and its end, and closed if and only if the answer is complete |
| `StreamState.QuietStates` | src/http2.cpp:663-688 | a stream reserved, half-closed by the client or closed takes no header, body or continuation, and an idle one nothing but HEADERS and PRIORITY |
| `StreamState.FollowsSection51` | src/http2.cpp:816-1077 | over every run of a request's frames the state is the one section 5.1 of RFC 7540 reads off the frames accepted, so closed if and only if it was reset or both sides ended |
| `StreamState.ClosedExactly` | src/http2.cpp:835-851 | over every run of a request's frames: closed if and only if it was reset or some frame with END_STREAM was answered in full while it was handled |
| `StreamState.LateEndRefused` | src/http2.cpp:969-1001 | a request answered with its last body octets, whose END_STREAM comes alone behind them, stays half-closed and its last frame is refused |
| `StreamState.SplitHeaderRefused` | src/http2.cpp:676-681 | HEADERS with END_STREAM and a CONTINUATION behind it: the second frame is refused and the request is never answered |
| `StreamState.TakesExactly` | src/http2.cpp:657-1077 | whether the next frame of a request is accepted, read off the frames before it: a header block part that parses and is not behind END_STREAM, DATA on a stream section 5.1 calls open, the others behind HEADERS |
| `StreamState.AcceptedExactly` | src/http2.cpp:657-1077 | over every run of a request's frames those accepted are the longest beginning taken frame by frame so, or end with a reset |
| `StreamState.RequestTaken` | src/http2.cpp:657-1077 | of the frames a client may send all are accepted if and only if the header block parses, no part of it comes behind END_STREAM, and no DATA comes behind the end of the answer |
| `StreamState.BlockInTimeExactly` | src/http2.cpp:676-681 | with a complete header block the second of these is to say that HEADERS with END_STREAM has END_HEADERS |
| `StreamState.ClosedByAnyFrames` | src/http2.cpp:1552-1552 | for any frames without a reset and any answers: closed if and only if END_STREAM was accepted and nothing opened the stream behind the server's end |
| `StreamState.BodyIsDataWhileOpen` | src/http2.cpp:969-1001 | over every run the body given to HTTP/1 is the DATA octets of the frames accepted, in order, which are accepted exactly while HEADERS has come and neither side ended nor reset; the first DATA outside that span ends the run |
| `PostedBody.PostSink.constructor` | src/http.cpp:120-166 | nothing has been collected |
| `PostedBody.PostSink.PushPostData` | src/http.cpp:873-893 | a frame's octets are added, of a form up to a NUL, unless the form is past its maximum; the answer says whether more is wanted |
| `PostedBody.PostCloses` | src/http2.cpp:982-1018 | for any POST whose header comes in one HEADERS frame, its body in any DATA frames: the stream closes if and only if the frame with END_STREAM is the first whose push wants no more |
| `PostedBody.NegativeLength` | src/http.cpp:883-889 | with a negative Content-Length a multipart body is answered at its first frame, a form only when it is past its maximum |
| `PostedBody.PostAnsweredWhole` | src/http.cpp:873-893 | the same for a body of the announced length: it closes with the whole body answered if and only if a form is NUL-free, the last frame completes the body, and a form is not past 4 MB in front of it |
| `ServerVars.Directory.constructor` | src/cache.cpp:676-681 | the directory starts without files |
| `ServerVars.ServerVarCache.constructor` | src/cache.cpp:17-45 | a process starts without variables and versions |
| `ServerVars.ServerVarCache.Save` | src/cache.cpp:559-615 | the process's file gets its variables and the next version; nothing is written when there are none |
| `ServerVars.ServerVarCache.Push` | src/cache.cpp:450-460 | the variable gets the current time and the file is rewritten |
| `ServerVars.ServerVarCache.MergeLines` | src/cache.cpp:727-741 | in whatever order a file's lines come, a newer variable replaces, a missing one is added, any other is left |
| `ServerVars.ServerVarCache.ReloadAll` | src/cache.cpp:666-753 | every file whose version differs from the one remembered is merged and its version remembered |
| `ServerVars.ServerVarCache.Get` | src/cache.cpp:500-509 | a read reloads and then answers what the process holds |
| `ServerVars.MergeFacts` | src/cache.cpp:727-741 | a merge is at least as new as both sides and takes every variable from one of them |
| `ServerVars.StepKeeps` | src/cache.cpp:450-753 | every step of any process, push, read, save without a push, or a new process on existing files, keeps the invariant, and variables, files and create times only grow |
| `ServerVars.CreateTimesNeverDecrease` | src/cache.cpp:727-741 | in every interleaving no variable disappears from a process and no create time goes back |
| `ServerVars.ReadSeesPush` | src/cache.cpp:500-509 | after a completed push every read in any process sees the variable at least as new, whatever happened in between |
| `ServerVars.WriteKeeps` | src/cache.cpp:559-615 | whatever a process writes of its variables and of pushes made now keeps the invariant: nothing published is lost |
| `ServerVars.RestartKeeps` | src/cache.cpp:1225-1229 | a new process that loads all files knows at least what the one before it knew |
| `ServerVars.ProcessesConverge` | src/cache.cpp:666-753 | processes that reload the same files agree on names and create times, and on values when the latest pushes of each name gave it one value |
| `ServerVars.SkippingLosesNothing` | src/cache.cpp:716-726 | in every reachable world a reload that skips known versions gives what reading all files would |
| `ServerVars.EqualTimesDiverge` | src/cache.cpp:731-737 | two pushes of one name at one time leave two processes with different values after reloading |
| `FileCache.Entry.constructor` | src/cache.h:60-92 | an entry holds its data and the time of its creation |
| `FileCache.Entry.Lock` | src/cache.h:97-101 | locking an entry for reading sets its access time |
| `FileCache.VictimExactly` | src/cache.cpp:780-805 | for any clock, never 0: the victim is the first shortest of the entries from the last one on between whose two locks the second turned, whenever they were last used |
| `FileCache.NoneAtZero` | src/cache.cpp:793-797 | access times of 0 decide nothing: the scan stays with the first entry |
| `FileCache.TotalWithout` | src/cache.cpp:860-863 | the total of a map is an entry's length and the total of the rest |
| `FileCache.MemoryCache.constructor` | src/cache.cpp:41-47 | an empty cache has size 0 |
| `FileCache.MemoryCache.Older` | src/cache.cpp:789-800 | one comparison, with the access times that its own locks set and the assignment at line 795: the current entry is taken if the second turned between the locks or it is shorter |
| `FileCache.MemoryCache.FindOldest` | src/cache.cpp:780-805 | for any clock the scan ends with the victim that `VictimExactly` characterises |
| `FileCache.MemoryCache.Deduct` | src/cache.cpp:860-860 | the counter follows the total, modulo 2^64 |
| `FileCache.MemoryCache.Credit` | src/cache.cpp:872-872 | the counter follows the total, modulo 2^64 |
| `FileCache.MemoryCache.Replace` | src/cache.cpp:832-843 | a cached name gets the new body and the counter stays the sum of the lengths |
| `FileCache.MemoryCache.Evict` | src/cache.cpp:857-864 | exactly one entry goes and the counter stays the sum of the lengths |
| `FileCache.MemoryCache.Insert` | src/cache.cpp:866-874 | a new name is added and the counter stays the sum of the lengths |
| `FileCache.MemoryCache.Push` | src/cache.cpp:823-878 | over all branches the counter stays the sum of the lengths; the map changes at the name, and at one victim when a new name comes at or over budget; a victim is missing if and only if the map is empty and the budget 0 |
| `FileCache.EvictionKeepsCount` | src/cache.cpp:1009-1028 | a push that evicts keeps the number of entries |
| `FileCache.EvictionShrinksExactly` | src/cache.cpp:857-874 | an evicting push lowers the total if and only if the new body is shorter than every entry walked since the second last turned, hence than every entry when it did not |
| `RequestIntake.RequestReader.constructor` | src/http.cpp:120-134 | a connection starts with nothing buffered in front of the header |
| `RequestIntake.RequestReader.AsyncRecv` | src/http.cpp:314-361 | what the socket held goes behind what is buffered |
| `RequestIntake.RequestReader.AsyncProtRecv` | src/http.cpp:370-410 | takes off the buffer the octets through the first line feed, or all, and at most the length asked for |
| `RequestIntake.RequestReader.AsyncHttpRecv` | src/http.cpp:257-270 | takes off the buffer as many octets as asked for, or all |
| `RequestIntake.RequestReader.LineParse` | src/http.cpp:1462-1571 | complete lines are taken off the pending text in order, up to a blank one, which ends the header |
| `RequestIntake.RequestReader.RecvPieces` | src/http.cpp:953-968 | the loop over pieces of 4095 octets takes exactly what is missing of the body, or all there is |
| `RequestIntake.RequestReader.AsyncRecvPostData` | src/http.cpp:932-977 | the body grows as `BodyStep` says for its kind and length |
| `RequestIntake.RequestReader.ReceiveHeader` | src/http.cpp:437-449 | the loop over pieces of the header has the effect of `HeaderLoop` |
| `RequestIntake.RequestReader.AsyncProcessing` | src/http.cpp:435-457 | one call has the effect of `Process` on header and body |
| `RequestIntake.HeaderLoopSplits` | src/http.cpp:435-449 | the header loop, piece by piece, finds exactly the lines of the text as a whole, stops behind the first blank one, and keeps no residue then |
| `RequestIntake.LinesAreRight` | src/http.cpp:1462-1568 | the lines and what is behind them are the stream; each line ends with its only line feed; only the last can be blank, exactly when the header is complete |
| `RequestIntake.BlankExactly` | src/http.cpp:1462-1571 | a line ends the header if and only if nothing but blanks stands in front of its line break, with or without a carriage return |
| `RequestIntake.HeaderSplits` | src/http.cpp:1462-1571 | header lines written with CRLF and an empty line are split into themselves, and what is behind is the body |
| `RequestIntake.WrittenRequest` | src/http.cpp:370-457 | a request as written, with a body of the length its lines declare, in any pieces, leaves the reader with its lines and its body and nothing over |
| `RequestIntake.Arrival` | src/http.cpp:435-457 | one arrival takes the reader from what it should hold to what it should hold |
| `RequestIntake.RequestReceived` | src/http.cpp:370-457 | for any octets in any segmentation: lines, residue and body are those of the stream as a whole, the body being the next Content-Length octets, if and only if the header and a URL-encoded body are NUL-free |
| `RequestIntake.SplitInsensitive` | src/http.cpp:435-457 | segmentations of the same octets leave the same state |
| `RequestIntake.DoneExactly` | src/http.cpp:932-977 | a request is complete if and only if its header is and it has no body, or all of a body that is multipart or below 4 MB is there |
| `FormData.FormBody.constructor` | src/formdata.h:22-81 | the one-pass loop collects the segments of `ScanParts` |
| `FormData.OnePart` | src/formdata.h:42-78 | behind a delimiter that is seen the scanner comes to the next delimiter, having found the first blank line between them, if there is one |
| `FormData.FromDelimiter` | src/formdata.h:40-79 | from any later delimiter the scan closes the segment before it and yields the bounds of all parts that follow |
| `FormData.FromStart` | src/formdata.h:22-81 | from the beginning of a body with no preamble and no padding the scan yields one record for each part, with the bounds of `AllBounds` |
| `FormData.FirstRecord` | src/formdata.h:40-79 | for any octets: a record closed behind octet `x` begins where the scan was and ends in front of a delimiter that is seen |
| `FormData.LineSeen` | src/formdata.h:26-28 | a delimiter line is seen only without padding |
| `FormData.EndingSeen` | src/formdata.h:31-33 | the last delimiter is seen only with a line break right behind it |
| `FormData.SegmentsSeen` | src/formdata.h:40-79 | if the segments are those of the parts from some part on, all delimiters behind it have been seen |
| `FormData.HeaderPart` | src/formdata.h:62-72 | the bounds of a part with header fields give back its header and its data, octet for octet, and the length handed out is that of the data, 0 included |
| `FormData.HeaderlessPart` | src/formdata.h:62-72 | a part without header fields is handed out right if and only if it has no data |
| `FormData.BoundsHandOut` | src/http.cpp:1802-1809 | of any parts each is handed out right if and only if it has header fields or no data |
| `FormData.ScanUndoesCompose` | src/formdata.h:22-81 | for every multipart body of section 5.1.1 of RFC 2046, with any preamble, padding, parts and epilogue and delimiter lines only where placed: the segments are those of the parts if and only if there is no preamble, no padding and a line break right behind the last delimiter; header and data of each are then handed out right if and only if it has header fields or no data |
| `UrlFormat.TwoDigits` | src/heapapi.cpp:183-196 | two hexadecimal digits give their octet whatever the accumulator held before |
| `UrlFormat.LiteralsAre` | src/heapapi.cpp:131-142 | the octets that stand for themselves, spelled out |
| `UrlFormat.UnitSpelled` | src/heapapi.cpp:129-162 | a blank becomes a plus sign, any other octet below 0x80 that does not stand for itself `%` and two capital digits, one above `%u` and four |
| `UrlFormat.NoOtherDigit` | src/heapapi.cpp:99-121 | a character has a value if and only if it is a hexadecimal digit, of either letter case |
| `UrlFormat.NoDigitShifts` | src/heapapi.cpp:183-196 | a character that is no digit leaves two bits of the accumulator, at the top, and sets the other six |
| `UrlFormat.PercentAtEnd` | src/heapapi.cpp:178-208 | a percent sign near the end is read as far as the terminator, and behind it if and only if fewer than two octets are left of it, or five of `%u` |
| `UrlFormat.UrlEncode` | src/heapapi.cpp:124-163 | the loop writes the encoding that the lemmas below decode |
| `UrlFormat.UrlDecode` | src/heapapi.cpp:165-217 | the loop writes the decoding, or would read behind the terminator exactly when `DecodeFrom` has no value |
| `UrlFormat.EncodedIsSafe` | src/heapapi.cpp:124-163 | an encoded text holds no `;`, `=`, `&`, blank, control character or octet outside ASCII |
| `UrlFormat.UnitDecodes` | src/heapapi.cpp:128-216 | one turn of the decoder undoes one turn of the encoder, for either byte order |
| `UrlFormat.DecodeUndoesEncode` | src/heapapi.cpp:124-217 | for every C string decoding its encoding gives it back, with a NUL added if and only if the run of high octets at its end is odd |
| `UrlFormat.EncodingIsInjective` | src/heapapi.cpp:124-163 | no two C strings have the same encoding |
| `UrlFormat.AnyEncodingDecodes` | src/heapapi.cpp:165-217 | whatever octets an encoder writes as themselves, with a plus sign, with `%` or with `%u`, and digits of either letter case: decoding gives the octets meant |
| `FormVars.Trim` | src/heapapi.cpp:16-93 | the two loops with their exit flags trim as `StrTrim` says |
| `FormVars.TrimmedKept` | src/heapapi.cpp:16-93 | a name that neither starts nor ends with a blank is left alone |
| `FormVars.TrimExactly` | src/heapapi.cpp:16-93 | of a text with blanks around it all those behind it go, in any order, and those in front if and only if they come in passes of spaces, tabs, carriage returns and line feeds, each but the last with a space |
| `FormVars.PostGetVars` | src/heapapi.cpp:219-250 | one pass over a query gives the map of its assignments, in order |
| `FormVars.FieldFed` | src/heapapi.cpp:225-234 | a field with a name and the separator behind it make one assignment under the encoded name: the decoded value, or for an empty value the one decoded last |
| `FormVars.AssignedRight` | src/heapapi.cpp:228-231 | all values are as written if and only if no empty one comes after one that is not |
| `FormVars.EncodedSame` | src/heapapi.cpp:124-163 | a text is its own encoding if and only if all its octets stand for themselves |
| `FormVars.AssignedNames` | src/heapapi.cpp:219-250 | all names are as written if and only if all their octets stand for themselves |
| `FormVars.TooFew` | src/heapapi.cpp:226-234 | with a nameless field fewer assignments are made than there are fields |
| `FormVars.SpacesSkipped` | src/heapapi.cpp:224-236 | a field of nothing but spaces is skipped and leaves nothing behind |
| `FormVars.NamelessCarries` | src/heapapi.cpp:225-234 | the value of a field without a name stays in front of that of the next field |
| `FormVars.EqualsDropped` | src/heapapi.cpp:238-239 | an equals sign inside a value is dropped |
| `FormVars.FieldsRead` | src/heapapi.cpp:219-250 | for every list of fields written as a query, names and values encoded: when all have a name, one assignment each, in order, with the right names if and only if these are literal and the right values if and only if no empty value comes after one that is not; with a nameless field not all are read |
| `FastCgi.FastCgiClient.Send` | src/fastcgi.cpp:104-104 | all octets go out, or those that still fit and the connection is broken for good |
| `FastCgi.FastCgiClient.ContentLength` | src/fastcgi.cpp:73-95 | the first pass counts exactly the octets the second pass writes |
| `FastCgi.FastCgiClient.SendPair` | src/fastcgi.cpp:105-159 | an entry goes out with the lengths in the form of section 3.4, or not at all |
| `FastCgi.FastCgiClient.SendParams` | src/fastcgi.cpp:64-169 | one record with all entries goes out, however many sends it takes and wherever they fail; the answer is -1 only when the header did not go out |
| `FastCgi.FastCgiClient.SendRequestData` | src/fastcgi.cpp:187-209 | one record with the data goes out, in the same sense |
| `FastCgi.FastCgiClient.SendEmpty` | src/fastcgi.cpp:171-185 | an end-of-stream record goes out |
| `FastCgi.FastCgiClient.BeginRequest` | src/fastcgi.cpp:42-62 | the request id is split into its octets and announced with the responder role |
| `FastCgi.FastCgiClient.SendParamsAndData` | src/fastcgi.cpp:404-423 | what goes out is always a beginning of the request's stream, and success is reported if and only if all of it went out |
| `FastCgi.RecordAligned` | src/fastcgi.cpp:97-102 | a record is a multiple of eight octets if and only if its content is at most 65535 octets or happens to end so |
| `FastCgi.RecordRead` | src/fastcgi.cpp:97-165 | by section 3.3 a record is read back, and what follows it found, if and only if its content is at most 65535 octets |
| `FastCgi.RestIsZero` | src/fastcgi.cpp:45-54 | the reserved octet and the padding, fewer than eight octets, are zero |
| `FastCgi.LengthRead` | src/fastcgi.cpp:119-123 | by section 3.4 a length is read back if and only if it is below 2^31 |
| `FastCgi.BodyRead` | src/fastcgi.cpp:105-159 | the content of a parameter record is read back as the entries carried, in order |
| `FastCgi.PairsMap` | src/fastcgi.cpp:75-95 | those entries are the map's, without empty ones and those with a string of exactly 128 octets |
| `FastCgi.ParamsRead` | src/fastcgi.cpp:64-169 | decoding a parameter record gives the map without those entries, hence the whole map if and only if there are none |
| `FastCgi.RequestRead` | src/fastcgi.cpp:404-423 | the stream of a request is read back as its records if and only if neither parameters nor data are longer than 65535 octets |
| `FastCgi.RequestMeans` | src/fastcgi.cpp:42-209 | a request read back opens, with a record of type 1, a request in role 1 whose connection is to be closed; the records of type 4 put together are the parameters and those of type 5 the data, each closed by an empty record |

## Left out

- Sockets, epoll, OpenSSL, fork, `socketpair`, extension hooks and file descriptors: inputs are arguments, outputs are recorded.
- Huffman coding, MD5, SHA-1 and base64: Huffman coding is the pair of functions of `Huffman`, assumed to be inverse.
- The 61 entries of the static table (`src/http2.cpp`): a parameter with the properties the lemmas name.
- `http_client::parse` (`src/http_client.cpp:249-464`): the facts it extracts and the header it sends are the parameter `Facts`.
- The text form of a variable file: a file is a version and a map; that `server_var` reads back the lines it writes is assumed.
- Saving and reloading are atomic steps; a reload that reads a half-written file is not modelled.
- HTTP/1 header fields: what they say about the body is the parameter `Declaring`, a function of the raw lines; methods, cookies, authentication and the capital letters put into names are not modelled.
- Chunk sizes of 2^32-2 and more, which overflow `m_chunk_len`.
- Padded DATA from a peer: `src/http2.cpp:988-989` hands on one padding octet too many, so received DATA is modelled unpadded.
- Stream identifiers and other 31-bit fields, which lose a bit on a little-endian host (`src/http2.cpp:353`): frames are dispatched to one stream at a time.
- The connection-level send window, and growth of the stream table by pushed streams: the code checks neither.
- The frame reader entered again while a response is sent.
- Strings of 4 GiB and more in FastCGI parameters, whose lengths are cut to 32 bits; receiving FastCGI responses.
- `clear_files` and `clear_tunnelings`, which empty the maps but not the counters: accounting holds from construction on as long as neither is called.
- The doubled relay buffer of `src/tunneling.cpp`, WebSocket framing, `Htdoc::Response`, `web_doc::Response`, cookies on disk, `memcached` and the reject list.
- WholeBody: size texts of at most 31 characters, as the relay misreads any longer one (`SizeReadRight`); the same holds of NoEarlyEnd, BodyInAnyReads and ChunkedResponse. The digits of the last chunk's 0 may be any number.
- SendContent: a run of the send loop is a finite beginning of it, given by `turns`, as the loop itself has no bound while it waits for the window.
- LongSizeMisread: the exact condition is proved for one size text (`SizeReadRight`); for whole bodies it would have to follow wherever the misread size leads, as `LongSizeUnnoticed` shows.
- SendBody: the cache copy has no capacity here; `CopyStaysInside` says when it would exceed the buffer it has.
- Parse: for a number or a string cut off by the block's end the model answers false, where the source reads up to 256 octets past the number's start and the string's length past the block; what it finds there is undefined.
- AsyncProcessing: whether a frame is refused is a function of the frames dispatched before it and of the frame, which leaves out refusals that depend on time or on the outcome of sends.
- ProtParse: what is sent while a frame is handled is an argument; for POST requests `PostedBody` fixes when it is sent, leaving out that an extension or a proxied request may send nothing. Pushed streams and tunnelled requests, which are answered outside their frames, are not modelled. FollowsSection51, ClosedExactly, AcceptedExactly and BodyIsDataWhileOpen are about runs with one header block (no trailers) whose answers end with their end; ClosedByAnyFrames is about any.
- FragmentRead: for a parser that stops at the end of the fragment, as Parse does here; the same holds of AccumulatesExactly.
- Multipart bodies of 4 GiB and more, whose length counter has 32 bits.
- Save: opening the variable file cannot fail here.
- FormBody.constructor: a comparison that would read behind the buffer counts as no match.
- ContentFromOctets: for frame sizes of at most 2^24-1, as section 6.5.2 of RFC 7540 demands of the peer; beyond that `FramesReadBack` says exactly when the octets are the frames.
- ScanDigits: only sizes below 2^32 and texts cut at the digits' end or at an extension, which is what a chunk-size line holds.
- UrlDecode: reads behind the terminator have no value in the model; what the program finds there is undefined.
- Progress of the hand-off: only safety is claimed, as an idle flush stops it.
