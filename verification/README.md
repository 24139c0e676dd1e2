# Verified model of the streaming OHTTP stack

This project models the message stack of the repository: a resumable reader over a chunked
asynchronous source (`crates/stream-buf`, `crates/stream-octets`), the Binary HTTP encoder and
streaming decoder on top of it (`crates/hyper-binary`), the OHTTP key table, header exchange and
chunked AEAD framing (`crates/ohttp-hpke`), and the HTTP/3 body and connection state machines
(`src/client/http3`). `dafny verify dfyconfig.toml` checks all of it.

## How it is modelled

A stream is its whole future: `Streams.Source` is a finite list of chunks, waits (`Pending`) and
transport errors (`Fault`), then the end of the stream. Every poll takes the head. Objects that the
source updates in place are classes with the same fields: `StreamBuf`, `DecodedBody`,
`EncodedMessage`, `Encapsulated`, `Decapsulated`, `ChunkNonce`, `AeadContext`, `ServerConfig`,
`OctetsMut`, the HTTP/3 `Writer`, `Reader` and `Connection`. An `async fn` is a method that polls
until it is ready.

The reference for everything that reads is a parser of one flat byte string: `Wire` is the bytes
before the first transport error together with how they end, and an `Outcome` is `Done`, `Failed` or
`Varies`. Besides the bytes it depends on two things, gathered in `Env`: the buffer limit, and the
trail, which says what empty chunks after the last byte do to a reader that asks whether there is more.

Every streaming method is proved against it twice, for every source: every chunking, empty chunks
included, every placement of waits and every transport error.

- `StreamBuf.Settled`: with the reader's own limit, the answer and the flat rest are those of the flat
  parser, unless its outcome is `Varies`. `Varies` marks one situation only, an exact read of bytes
  that are there, longer than the limit plus one; `StreamBuf.ReadIndependent` shows that there, and
  only there, the answer depends on where the chunks end.
- `StreamBuf.Sound`: against the flat parser without a limit, which is never undecided, a success is
  always its answer, and an error is its error or the limit's.

Polls that are not ready take exactly one wait of the source, and the others none (`StreamBuf.Paced`).

Streams that produce rather than read have an `Out()` or a trace function giving all they
will still emit, and each poll is proved to emit its head.

The http crate's parsers are a `Grammar`: functions from bytes to the canonical value, or nothing. A
header map is a list of groups, one per name in order of first appearance, each with its values in
order. The sealing and opening streams run on the response context with its nonce counter, or, for a
request, on a foreign context of which only the call numbering is known. AEAD, HPKE and HKDF are
functions with these laws: what is sealed opens again under the same call number and associated data,
input shorter than a tag does not open, the receiver with the matching private key gets the sender's
context, and exported secrets have the length asked for.
`Handshake.LawsConsistent` exhibits functions that satisfy all of them.

Round trips cannot tell a format from another that both sides agree on, so `Layouts` states the formats
octet by octet, and `AnyMessage` what the decoder makes of messages by any sender: each string is kept as
the http crate's parser keeps it, and invalid data where a parser rejects it. `H3Connection.FiresExactly`
does the same for the connection: it tells from the inputs alone when it answers and when it stops.

## Where the code and its promises differ

- `poll_has_more_data` says yes on an empty chunk (`crates/stream-buf/src/lib.rs:112`), so whether a
  message that ends early is noticed depends on the empty chunks after its last byte. A head without
  its terminator passes for a whole one if and only if none follows (`StreamTruncation.ReceiveUnfinished`);
  content without its terminator passes for complete if and only if the source does not end on one, a
  wait in between making the body ask again (`StreamTruncation.ReceiveUnterminated`, with three
  concrete sources in `StreamTruncation.EmptyChunkDecides`). The chunked decapsulated stream of this
  sender ends on one, the empty plaintext of its final frame (`Decapsulated.Drain`, `EndToEnd.OpenPayload`),
  so there the loss is always reported as an unexpected end of file, and in the non-chunked form it never
  is (`EndToEnd.OpenUnterminated`). A final frame that carries data is also accepted, and then it need not
  (`Framing.FinalFrameOpens`). For every other cut, of requests and of both response forms,
  `CutPoints.ReceiveCutRequest` and `CutPoints.ReceiveCutResponse` say exactly when it passes for a whole
  message. Whatever is delivered is true in any case (`StreamTruncation.ReceiveTruncatedRequest`,
  `StreamTruncation.ReceiveTruncatedResponse`). When the sealed chunked message itself is cut, what
  passes is whole: `EndToEnd.ReceiveTruncatedExchange`, `EndToEnd.ReceiveTruncatedAnswer`.
- For the same reason a complete key table followed by an empty chunk is refused: `KeyConfig.ConfigRoundTrip`
  states both cases.
- A response comes back exactly when its status is final: `BinaryLaws.StatusExact`.
- A known-length body comes back exactly when the announced size is true: `BinaryLaws.KnownContentExact`.
- Informational responses are always read with a known-length field section, also under framing
  indicator 3, where section 3.2 of RFC 9292 has the indeterminate form. One in that form is skipped
  if it has no header lines. With any, the name of the first is taken for a whole field section: if it is
  not one the response is refused, and if it is one the length of the value is taken for the next status
  (`BinaryLaws.InterimFormExact`, for all lines). A usual name is never one (`BinaryLaws.NameIsNoBlock`,
  and `BinaryLaws.EarlyHintsRefused` at a concrete response), but a legal one can be, and then an
  informational response supplies the final status (`BinaryLaws.InterimTakenForFinal`). Known-length ones
  are skipped under both indicators (`BinaryLaws.InterimSkippedInResponse`).
- The nonce counter refuses one call in 256^n and then starts over: a fresh counter never repeats a nonce
  if and only if it is called at most 256^n times (`ChunkNonce.Draw`). The response sealer follows it
  (`Aead.NextCall`): after a refusal it seals again under numbers already used.
- An HTTP/3 write answers with fewer bytes than it sent exactly when a fin was asked for and all of a
  non-empty buffer went out, because the frame carrying the fin is not counted (`H3Body.Writer.PollWrite`,
  with such a write in `H3Body.ShortCount`). Its only caller with a fin passes no data.
- An HTTP/3 read into a non-empty buffer can be ready without bytes before the end: exactly when only
  empty frames without a fin come before a wait and data comes after it (`H3Body.Reader.PollRead`, with
  such a read in `H3Body.StalledRead`).

## Model

| member | source | states |
|---|---|---|
| Varint.VarintRoundTrip | crates/hyper-binary/src/encoder/mod.rs:150-159 | every value below 2^62 is written in the width its first octet announces and reads back as itself (section 16 of RFC 9000) |
| Layouts.VarintLayout | crates/hyper-binary/src/encoder/mod.rs:150-159 | a varint octet by octet, in the shortest of its four widths |
| Layouts.VarintReads | crates/stream-octets/src/lib.rs:87-89 | any varint, minimal or not, reads as its octets to the base 256 without the top two bits |
| Layouts.FixedReads | crates/stream-octets/src/lib.rs:55-85 | the fixed-width integers are 1, 2, 4 and 8 octets, big-endian |
| Layouts.Registered | crates/ohttp-hpke/src/config.rs:45-110 | the numbers fixed elsewhere: framing indicators, algorithm codes, key and secret lengths, the associated data of a final chunk, the default buffer limit |
| Layouts.ShortRequest | crates/hyper-binary/src/encoder/mod.rs:193-315 | a request head string by string, in the order of the format |
| Layouts.ShortResponse | crates/hyper-binary/src/encoder/mod.rs:322-446 | both response heads string by string |
| Layouts.ShortContent | crates/hyper-binary/src/encoder/mod.rs:111-167 | content event by event in both forms |
| Layouts.ShortFrames | crates/ohttp-hpke/src/encapsulated.rs:117-153 | a chunk section octet by octet, with call numbers and associated data |
| Layouts.SealEvents | crates/ohttp-hpke/src/encapsulated.rs:117-153 | a chunk sealed: its sealed length, its ciphertext and its tag, three items in a row |
| Layouts.SealPasses | crates/ohttp-hpke/src/encapsulated.rs:117-153 | empty chunks, waits and errors pass the chunked sealer as they come, and the end is a zero and the tag over `final` |
| Layouts.WholeEvents | crates/ohttp-hpke/src/encapsulated.rs:104-116 | the non-chunked sealer event by event |
| Layouts.ConfigLayout | crates/ohttp-hpke/src/server.rs:139-155 | a key configuration octet by octet |
| Layouts.AlgorithmLayout | crates/ohttp-hpke/src/server.rs:148-151 | each algorithm of the list octet by octet |
| Layouts.TableLayout | crates/ohttp-hpke/src/server.rs:94-101 | in a table each configuration stands behind its length in two octets |
| StreamBuf.StreamBuf.PollReadExact | crates/stream-buf/src/lib.rs:47-87 | answers as the flat read for every chunking, and a success is the first bytes whatever the limit; not ready takes one wait and changes nothing observable; no byte is lost, added or reordered; the buffer bound is kept; fails on available bytes exactly when a chunk ends past the limit |
| StreamBuf.StreamBuf.ReadExact | crates/stream-buf/src/lib.rs:89-91 | the same through any number of waits |
| StreamBuf.StreamBuf.PollReadToEnd | crates/stream-buf/src/lib.rs:93-99 | gathers everything up to the end or the first error, keeping what it holds across waits and errors |
| StreamBuf.StreamBuf.PollHasMoreData | crates/stream-buf/src/lib.rs:105-121 | says yes exactly when bytes are left or an empty chunk announces more, an error or no otherwise; says what each answer does to the trail |
| StreamBuf.StreamBuf.PollFillBuf | crates/stream-buf/src/lib.rs:131-147 | appends exactly the next chunk without changing the flat view, takes one wait, or reports the limit or the end of the source; keeps the trail unless the last byte has come |
| StreamBuf.StreamBuf.PollReadAtMost | crates/stream-buf/src/lib.rs:149-163 | hands out exactly the front of the buffer, or of the next chunk if the buffer is empty, up to the length asked; fails only with nothing left |
| StreamBuf.StreamBuf.PollNext | crates/stream-buf/src/lib.rs:220-237 | passes on the buffer and then the source, chunk by chunk |
| StreamBuf.Run | crates/stream-buf/src/lib.rs:47-245 | over every interleaving of operations, bytes handed out followed by bytes unread are the original bytes; without a read to end the buffer never exceeds its limit by more than one chunk |
| StreamBuf.ReadIndependent | crates/stream-buf/src/lib.rs:47-87 | an exact read of available bytes is independent of the chunking if and only if it asks for at most limit + 1 bytes |
| StreamBuf.NeverLimited | crates/stream-buf/src/lib.rs:165-171 | a read of at most limit + 1 bytes never meets the size error of its own |
| StreamBuf.AnnouncesData | crates/stream-buf/src/lib.rs:105-121 | more is announced whenever there is more, and otherwise only because of an empty chunk |
| StreamBuf.DenseTrail | crates/stream-buf/src/lib.rs:105-121 | a source without empty chunks has a clear trail: it announces and starves nobody |
| StreamBuf.EmptyChunkAnnounces | crates/stream-buf/src/lib.rs:110-114 | the concrete empty chunk that announces data that is not there |
| StreamOctets.PollWithOctets | crates/stream-octets/src/lib.rs:113-134 | an integer field is decoded as off the flat bytes, whatever the chunking and, when it succeeds, whatever the limit; with no bytes left it fails exactly when the source ends before it waits |
| StreamOctets.ReadWithVarintLength | crates/stream-octets/src/lib.rs:106-110 | a length-prefixed string is decoded as off the flat bytes; a success is that string whatever the limit, an error that of the flat bytes or the limit |
| HttpMessage.CollectLines | crates/hyper-binary/src/encoder/mod.rs:437-446 | reading a header map's lines one by one rebuilds the map, value order per name included |
| HttpMessage.LookupPrefix | crates/hyper-binary/src/decoder/mod.rs:280-288 | a header found in the first lines has the same first value among all lines |
| HttpMessage.CollectKeepsOrder | crates/hyper-binary/src/decoder/mod.rs:115-128 | lines in any order, interleaved or not: each header keeps exactly its own values in their order, and the headers stand in order of first appearance |
| HttpMessage.SplitJoinQuery | crates/hyper-binary/src/encoder/mod.rs:299-312 | path and query come apart again at the first question mark |
| BinaryDecoder.DecodeRequestControlData | crates/hyper-binary/src/decoder/mod.rs:180-208 | on every source refines the flat control data, error order included; success is the flat answer whatever the limit |
| BinaryDecoder.DecodeFieldBlock | crates/hyper-binary/src/decoder/mod.rs:95-129 | the loop over a buffered block gives the map of the lines the flat parser reads, or fails with it |
| BinaryDecoder.DecodeKnownLengthFieldSection | crates/hyper-binary/src/decoder/mod.rs:82-130 | on every source refines the flat known-length section; success is the flat answer whatever the limit |
| BinaryDecoder.DecodeIndeterminateLengthFieldSection | crates/hyper-binary/src/decoder/mod.rs:149-177 | on every source refines the flat indeterminate-length section; success is the flat answer whatever the limit |
| BinaryDecoder.DecodeResponseControlData | crates/hyper-binary/src/decoder/mod.rs:214-238 | on every source refines the flat status with its informational loop, which ends because each turn consumes input |
| BinaryDecoder.DecodeRequest | crates/hyper-binary/src/decoder/mod.rs:22-37 | on every source a request decodes as the flat parser decodes its bytes and trail; a success is its answer and an error its error or the limit's |
| BinaryDecoder.DecodeResponse | crates/hyper-binary/src/decoder/mod.rs:39-54 | the same for responses |
| BinaryDecoder.DecodedBody.PollFrame | crates/hyper-binary/src/decoder/body.rs:68-105 | on every source each frame is the next part of the content the flat parser delivers; an end or an error comes exactly where that has one, or the error is the limit's |
| BinaryDecoder.DecodedBody.PollReadAtMost | crates/hyper-binary/src/decoder/body.rs:125-141 | counts down in place by what it hands out |
| BinaryDecoder.CollectBody | crates/hyper-binary/src/decoder/body.rs:59-123 | on every source, read to its end, a body delivers the flat content and its ending; if the limit strikes, a prefix of it |
| BinaryMessages.RequestDecided | crates/hyper-binary/src/decoder/mod.rs:22-146 | with limits of at least the message length the outcome depends neither on the chunking nor on the limit |
| BinaryMessages.ResponseDecided | crates/hyper-binary/src/decoder/mod.rs:39-268 | the same for responses |
| BinaryMessages.ReceiveRequest | crates/hyper-binary/src/decoder/mod.rs:22-146 | for every source and limit: parts and first content bytes are those of the flat parser, the end or error too unless it is the limit's; within the limit the whole outcome is the flat one |
| BinaryMessages.ReceiveResponse | crates/hyper-binary/src/decoder/mod.rs:39-268 | the same for responses |
| BinaryMessages.BodyDecided | crates/hyper-binary/src/decoder/body.rs:68-105 | how content ends is decided once its chunk lengths fit the limit, whatever its size |
| BinaryMessages.RequestReadBack | crates/ohttp-gateway-worker/src/lib.rs:94-99 | an encoded request decodes to itself in any buffer that takes each of its strings, and in one of exactly its length |
| BinaryMessages.ResponseReadBack | crates/stream-buf/src/lib.rs:185-196 | the same for both response forms |
| BinaryMessages.ContentReadBack | crates/hyper-binary/src/decoder/body.rs:68-105 | the same for content, whole or broken off |
| BinaryEncoder.FieldLinesLenExact | crates/hyper-binary/src/encoder/mod.rs:421-435 | the computed length of the field lines is the length written |
| BinaryEncoder.RequestLenExact | crates/hyper-binary/src/encoder/mod.rs:193-249 | the computed length of a request's first chunk is the length written |
| BinaryEncoder.ResponseLenExact | crates/hyper-binary/src/encoder/mod.rs:322-363 | the computed lengths of both response heads are the lengths written |
| BinaryEncoder.PutFieldLines | crates/hyper-binary/src/encoder/mod.rs:437-446 | writes exactly the field lines after what is there, and cannot fail when they fit |
| BinaryEncoder.PutRequestControlData | crates/hyper-binary/src/encoder/mod.rs:275-315 | writes exactly the control data after what is there, and cannot fail when it fits |
| BinaryEncoder.InitialRequestChunk | crates/hyper-binary/src/encoder/mod.rs:170-213 | produces exactly the request head, fails exactly without a scheme; no write fails and no padding is left; `BinaryLaws.AuthorityOmitted` and `Layouts.ShortRequest` say what the head is |
| BinaryEncoder.InitialIndeterminateResponseChunk | crates/hyper-binary/src/encoder/mod.rs:317-346 | produces exactly the indeterminate-length head |
| BinaryEncoder.InitialKnownResponseChunk | crates/hyper-binary/src/encoder/mod.rs:348-383 | produces exactly the known-length head |
| BinaryEncoder.EncodedMessage.PollNext | crates/hyper-binary/src/encoder/mod.rs:111-167 | each poll emits the next item of the head followed by the encoded content; waits and body errors pass through |
| BinaryEncoder.EncodeRequest | crates/hyper-binary/src/encoder/mod.rs:18-49 | the stream it returns will emit the request head and the chunked content |
| BinaryEncoder.EncodeResponse | crates/hyper-binary/src/encoder/mod.rs:51-80 | known length exactly when the size hint is exact |
| BinaryLaws.RequestHeadRoundTrip | crates/hyper-binary/src/encoder/mod.rs:170-315 | an encoded request decodes to the same method, URI and headers, whatever follows, also when the authority is left to Host |
| BinaryLaws.KnownRequestRead | crates/hyper-binary/src/decoder/mod.rs:65-79 | a request in the known-length form decodes to the same request and content length |
| BinaryLaws.Reassembled | crates/hyper-binary/src/decoder/mod.rs:270-307 | the authority is recovered from Host when it was omitted |
| BinaryLaws.AuthorityOmitted | crates/hyper-binary/src/encoder/mod.rs:181-186 | on the wire the authority is left out exactly when the first Host header is that authority |
| BinaryLaws.ContentRoundTrip | crates/hyper-binary/src/encoder/mod.rs:122-166 | chunked content decodes to the bytes of the body for every cutting of the body, empty chunks included, whatever follows |
| BinaryLaws.ContentBreaks | crates/hyper-binary/src/encoder/mod.rs:122-124 | a body that breaks off, so that no terminator is written, is delivered up to the break; then comes an error, or a clean end if and only if the input ends well and not on an empty chunk |
| BinaryLaws.IndeterminateResponseRoundTrip | crates/hyper-binary/src/encoder/mod.rs:403-419 | status and headers come back |
| BinaryLaws.KnownResponseRoundTrip | crates/hyper-binary/src/encoder/mod.rs:385-401 | status, headers and content length come back |
| BinaryLaws.KnownContentRoundTrip | crates/hyper-binary/src/decoder/body.rs:26-37 | with a true size the content is the body, whatever follows |
| BinaryLaws.KnownContentExact | crates/hyper-binary/src/encoder/mod.rs:91-96 | with nothing after it the content is the body if and only if the announced size is true |
| BinaryLaws.KnownContentPart | crates/hyper-binary/src/decoder/body.rs:96-105 | known-length content that does not all come: every octet that came, and then the input's own error or an unexpected end of file |
| BinaryLaws.StatusExact | crates/hyper-binary/src/decoder/mod.rs:221-237 | a status comes back if and only if it is a final status code |
| BinaryLaws.InterimSkipped | crates/hyper-binary/src/decoder/mod.rs:227-235 | any number of informational responses leaves the final status and the rest as they are |
| BinaryLaws.InterimSkippedInResponse | crates/hyper-binary/src/decoder/mod.rs:214-253 | under framing indicators 1 and 3 the whole decoded response is unchanged by them |
| BinaryLaws.InterimFormExact | crates/hyper-binary/src/decoder/mod.rs:227-235 | what an indeterminate-length informational response decodes to, for all its lines: skipped without lines; with lines refused unless the first name is itself a field section, and then the value's length is read as the next status |
| BinaryLaws.NameIsNoBlock | crates/hyper-binary/src/decoder/mod.rs:227-235 | a field name as they are usually written is never itself a field section, so an informational response that starts with it is refused |
| BinaryLaws.InterimTakenForFinal | crates/hyper-binary/src/decoder/mod.rs:214-238 | a concrete informational response whose legal header name and value length make the decoder report the final status 200 |
| BinaryLaws.EarlyHintsRefused | crates/hyper-binary/src/decoder/mod.rs:214-253 | a concrete response under framing indicator 3 that is refused for its informational response |
| AnyMessage.LineRead | crates/hyper-binary/src/decoder/mod.rs:149-177 | any header line in the indeterminate form, however spelled, is kept as the parsers keep it, or is invalid data |
| AnyMessage.KnownLineRead | crates/hyper-binary/src/decoder/mod.rs:95-129 | the same in the known-length form |
| AnyMessage.SectionRead | crates/hyper-binary/src/decoder/mod.rs:149-177 | any indeterminate-length section: the lines as parsed, in order, or invalid data as soon as one is rejected |
| AnyMessage.KnownSectionRead | crates/hyper-binary/src/decoder/mod.rs:82-130 | the same for a known-length section |
| AnyMessage.ControlRead | crates/hyper-binary/src/decoder/mod.rs:180-208 | any four control fields: kept as parsed, an empty authority being none, or invalid data where a parser rejects one |
| AnyMessage.AnyRequestRead | crates/hyper-binary/src/decoder/mod.rs:133-147 | any indeterminate-length request by any sender: its parsed fields and lines, the authority its own or else the first Host header that is one; refused if a string is rejected or there is no authority |
| AnyMessage.AnyKnownRequestRead | crates/hyper-binary/src/decoder/mod.rs:65-79 | the same for a known-length request |
| AnyMessage.AnyResponseRead | crates/hyper-binary/src/decoder/mod.rs:255-268 | any indeterminate-length response with a final status: the lines as parsed, or invalid data |
| AnyMessage.AnyKnownResponseRead | crates/hyper-binary/src/decoder/mod.rs:240-253 | the same for a known-length response |
| AnyMessage.HostInCapitals | crates/hyper-binary/src/decoder/mod.rs:280-288 | a concrete request whose only authority is a Host header in capitals: it is stored in lower case and found |
| BinaryTruncation.RequestTruncated | crates/hyper-binary/src/decoder/mod.rs:133-177 | any prefix of any decodable request, each with its own trail, where it decodes has the same control data, its first header lines and its first content bytes |
| BinaryTruncation.ResponseTruncated | crates/hyper-binary/src/decoder/mod.rs:214-268 | the same for responses |
| BinaryTruncation.EncodedRequestTruncated | crates/hyper-binary/src/decoder/mod.rs:158-176 | any prefix of an encoded request fails or gives the same method and URI, the first header lines and the first body bytes |
| BinaryTruncation.EncodedResponseTruncated | crates/hyper-binary/src/decoder/mod.rs:240-268 | the same for both response forms |
| BinaryTruncation.BodyCut | crates/hyper-binary/src/decoder/body.rs:79-95 | content delivered from a prefix is a prefix of the content |
| BinaryTruncation.EncodedRequestBroken | crates/hyper-binary/src/decoder/mod.rs:158-176 | any prefix of an encoded request that ends in an error: nothing, or the whole head; and content that ends cleanly is the whole body |
| BinaryTruncation.EncodedResponseBroken | crates/hyper-binary/src/decoder/mod.rs:240-268 | the same for both response forms |
| StreamTruncation.ReceiveTruncatedRequest | crates/hyper-binary/src/decoder/mod.rs:22-177 | on every source that brings a prefix of an encoded request, with every limit: an error, or the same method and URI, the first header lines and the first body bytes |
| StreamTruncation.ReceiveTruncatedResponse | crates/hyper-binary/src/decoder/mod.rs:39-268 | the same for both response forms |
| StreamTruncation.ReceiveBrokenRequest | crates/hyper-binary/src/decoder/mod.rs:22-177 | on every source that breaks off within an encoded request, with every limit: an error, or the whole head; and a clean end means the whole body |
| StreamTruncation.ReceiveBrokenResponse | crates/hyper-binary/src/decoder/mod.rs:39-268 | the same for both response forms |
| StreamTruncation.SectionEnds | crates/hyper-binary/src/decoder/mod.rs:149-177 | header lines and then the end of the input are a complete section if and only if no empty chunk follows |
| StreamTruncation.ReceiveUnfinished | crates/hyper-binary/src/decoder/mod.rs:149-177 | a request cut off after its last header line is taken for a whole one if and only if no empty chunk follows, and is an unexpected end of file otherwise |
| StreamTruncation.ReceiveUnterminated | crates/hyper-binary/src/decoder/body.rs:79-95 | content without its terminator is delivered, and ends cleanly if and only if the source does not end on an empty chunk |
| StreamTruncation.EmptyChunkDecides | crates/stream-buf/src/lib.rs:110-114 | the same unterminated request with nothing after it, with one empty chunk, and with one empty chunk and a wait: a clean end, an unexpected end of file, and a clean end |
| StreamTruncation.Trails | crates/stream-buf/src/lib.rs:105-121 | what the shortest sources announce after their last byte: with nothing after it, an empty chunk, an empty chunk and a wait, a wait and an empty chunk |
| CutPoints.SectionCutExact | crates/hyper-binary/src/decoder/mod.rs:149-177 | a header section cut anywhere before its terminator: whole lines and no announcing chunk give those lines, anything else an unexpected end of file |
| CutPoints.ContentCutExact | crates/hyper-binary/src/decoder/body.rs:79-95 | content cut anywhere before its terminator: every octet that came is delivered; it ends with the input's own error, or cleanly if and only if whole chunks are left and the input does not end on an empty chunk |
| CutPoints.RequestCutExact | crates/hyper-binary/src/decoder/mod.rs:22-177 | for every proper prefix of an encoded request, the exact condition under which it passes for a whole one |
| CutPoints.ReceiveCutRequest | crates/hyper-binary/src/decoder/mod.rs:22-177 | the same for the streaming decoder on every source |
| CutPoints.RequestBreaksExact | crates/hyper-binary/src/decoder/mod.rs:22-177 | a request that breaks off: within the head the source's own error; within the content every octet that came and then that error; after the terminator the break is not seen |
| CutPoints.ReceiveBreaking | crates/stream-buf/src/lib.rs:57-65 | the same for the streaming decoder on every such source |
| CutPoints.KnownResponseCut | crates/hyper-binary/src/decoder/mod.rs:240-268 | a known-length response passes for whole exactly when cut right after its status or its header section with no announcing chunk |
| CutPoints.IndeterminateResponseCut | crates/hyper-binary/src/decoder/mod.rs:240-268 | an indeterminate-length response passes for whole exactly when cut after whole lines or whole chunks, under the conditions of requests |
| CutPoints.ReceiveCutResponse | crates/hyper-binary/src/decoder/mod.rs:39-268 | both for the streaming decoder on every source |
| ChunkNonce.ChunkNonce.Next | crates/ohttp-hpke/src/response.rs:157-170 | at count k returns the nonce of k, bit by bit that of `ChunkNonce.NonceBit`, and counts on; at 256^n - 1 refuses and starts over |
| ChunkNonce.ChunkNonce.Incr | crates/ohttp-hpke/src/response.rs:172-184 | adds one to the big-endian counter, carries included, and fails exactly on wrap-around |
| ChunkNonce.NonceBit | crates/ohttp-hpke/src/response.rs:157-166 | every bit of the nonce of call k: that of the initial nonce, flipped where the big-endian k has a one |
| ChunkNonce.FirstNonce | crates/ohttp-hpke/src/response.rs:157-170 | call zero takes the initial nonce itself |
| ChunkNonce.XorBit | crates/ohttp-hpke/src/response.rs:164 | a bit of the exclusive or is set if and only if it is set in exactly one of the two |
| ChunkNonce.NoncesDistinct | crates/ohttp-hpke/src/response.rs:148-184 | calls with different numbers use different nonces |
| ChunkNonce.Draw | crates/ohttp-hpke/src/response.rs:148-184 | over every run of a fresh counter: call k gives nonce k below 256^n - 1, every 256^n-th call is refused, and no nonce is given twice if and only if there are at most 256^n calls |
| Aead.AeadContext.SealInPlace | crates/ohttp-hpke/src/response.rs:56-62 | at count k seals with nonce k, or refuses at the last count and starts over |
| Aead.AeadContext.OpenInPlace | crates/ohttp-hpke/src/response.rs:64-74 | at count k opens with nonce k, or refuses at the last count and starts over |
| Aead.NumberedLawful | crates/ohttp-hpke/src/response.rs:24-37 | the nonce counter turns the bare cipher into one that satisfies the numbered sealing laws |
| Encapsulated.Encapsulated.PollNext | crates/ohttp-hpke/src/encapsulated.rs:96-155 | each poll emits the next item of the run, in both modes, at the price of the sealer calls it owed, except that it is refused exactly when it needs the sealer past its last call; the nonce counter then goes where that call takes it |
| Encapsulated.Drain | crates/ohttp-hpke/src/encapsulated.rs:87-156 | polled to its end the stream emits exactly its run and makes exactly the calls it owed, on the nonce counter where there is one: one per non-empty chunk and one for the end |
| Encapsulated.SealTraceBytes | crates/ohttp-hpke/src/encapsulated.rs:117-153 | a run without source errors is the flat chunk section with calls numbered from the front |
| Encapsulated.WholeTraceBytes | crates/ohttp-hpke/src/encapsulated.rs:104-116 | the non-chunked run is one sealing of all the bytes |
| Encapsulated.EncodedLen | crates/ohttp-hpke/src/encapsulated.rs:158-168 | the length prefix is exactly its varint |
| Decapsulated.Decapsulated.PollNext | crates/ohttp-hpke/src/decapsulated.rs:86-124 | each item is the next one of the flat opener, for every chunking; when a frame is too large for the buffer, that or the limit's error |
| Decapsulated.Drain | crates/ohttp-hpke/src/decapsulated.rs:77-125 | polled to its end the stream hands out the flat opener's plaintext and ends as it does, or hands out a prefix and ends with the limit's error; after a final frame it ends on an empty chunk |
| Decapsulated.OpenWhole | crates/ohttp-hpke/src/server.rs:309-331 | opens everything up to the end of the source at once |
| Framing.FramesOpen | crates/ohttp-hpke/src/decapsulated.rs:89-123 | a sealed chunk section opens to its chunks, one by one and in order, then the end |
| Framing.FramesTruncated | crates/ohttp-hpke/src/decapsulated.rs:86-124 | any prefix of a chunk section that is not all of it, or that breaks off, gives some of the chunks in order and then an error, never an end |
| Framing.FinalFrameOpens | crates/ohttp-hpke/src/decapsulated.rs:103-123 | a final frame opens to what it was sealed over, data included, and then comes the end |
| Framing.ChunkIsNotFinal | crates/ohttp-hpke/src/decapsulated.rs:103-123 | a chunk passed off as the final frame is refused by any cipher that tells the associated data apart |
| Framing.FinalIsNotChunk | crates/ohttp-hpke/src/decapsulated.rs:95-123 | a final frame passed off as a chunk is refused likewise |
| Framing.OutOfTurn | crates/ohttp-hpke/src/decapsulated.rs:95-123 | a chunk out of its turn is refused by any cipher that tells the calls apart |
| Framing.OpenUnlimited | crates/ohttp-hpke/src/decapsulated.rs:86-124 | what is opened is the same under all limits that are no smaller than the input |
| KeyConfig.ServerConfig.AddKeyConfig | crates/ohttp-hpke/src/server.rs:33-65 | appends under the next id exactly when the limits allow it, and keeps the table well-formed |
| KeyConfig.TotalLenExact | crates/ohttp-hpke/src/server.rs:103-113 | the computed length of the table is the length written |
| KeyConfig.EncodeConfig | crates/ohttp-hpke/src/server.rs:94-155 | the table is written exactly; no 16-bit length is truncated and no write fails |
| KeyConfig.DecodeConfig | crates/ohttp-hpke/src/client.rs:26-52 | on every source refines the flat table parser, and success is its answer whatever the limit; a success has a first configuration with a first algorithm |
| KeyConfig.DecodeKeyConfig | crates/ohttp-hpke/src/client.rs:54-98 | a decoded configuration lists an algorithm and has a public key of its KEM's length |
| KeyConfig.DecodeAlgorithms | crates/ohttp-hpke/src/client.rs:82-90 | the loop over the cursor gives the list of the flat reading, or fails with it |
| KeyConfig.ReadConfig | crates/ohttp-hpke/src/client.rs:55-97 | a well-formed configuration decodes to itself |
| KeyConfig.ConfigExact | crates/ohttp-hpke/src/client.rs:54-98 | a configuration decodes to c if and only if it begins with the encoding of c, which has a key of its KEM's length and an algorithm |
| KeyConfig.DecodableEach | crates/ohttp-hpke/src/client.rs:33-51 | blob by blob and in order, one that decodes gives its configuration and one that does not hides none of the others |
| KeyConfig.PicksFirst | crates/ohttp-hpke/src/client.rs:106-118 | the client picks the first algorithm of the first configuration that decodes |
| KeyConfig.ReadConfigs | crates/ohttp-hpke/src/client.rs:33-51 | a concatenation of length-prefixed blobs gives exactly the decodable ones in order; an error if there is none or an empty chunk follows |
| KeyConfig.ConfigRoundTrip | crates/ohttp-hpke/src/client.rs:26-98 | any table built by adding keys decodes to the same ids, keys and algorithm lists in order, if and only if no empty chunk follows it, in any buffer that takes one configuration or the whole table |
| KeyConfig.ChoicesAccepted | crates/ohttp-hpke/src/server.rs:67-92 | every key and algorithm of the decoded table is accepted and returns that key pair |
| KeyConfig.OnlyChoicesAccepted | crates/ohttp-hpke/src/server.rs:67-92 | a header is accepted if and only if it is a choice from the published table, and then with the key pair of the chosen configuration |
| Handshake.DecodeHeader | crates/ohttp-hpke/src/header.rs:22-40 | on every source refines the flat header |
| Handshake.PutHeader | crates/ohttp-hpke/src/header.rs:53-60 | writes exactly the header |
| Handshake.EncodeInfo | crates/ohttp-hpke/src/header.rs:62-94 | the request info is the label, a zero and the header, in a buffer of exactly that length; `Handshake.InfoLayout` and `Handshake.InfoInjective` say what that binds |
| Handshake.InfoInjective | crates/ohttp-hpke/src/header.rs:62-94 | the info binds the label and every field of the header |
| Handshake.InfoLayout | crates/ohttp-hpke/src/header.rs:76-94 | the info octet by octet: the label, a zero, the key id, then the three codes |
| Handshake.RequestBinding | crates/ohttp-hpke/src/client.rs:173-240 | what the request context is set up with, what the first chunk is, and what the response secret is exported from, by suite, key, label and length |
| Handshake.ResponseBinding | crates/ohttp-hpke/src/instance.rs:124-185 | the response is sealed under key and nonce derived from encapsulated key, response nonce and secret, and call zero uses the initial nonce |
| Handshake.ReadHeader | crates/ohttp-hpke/src/header.rs:22-60 | a written header decodes to itself |
| Handshake.EncodeInitialChunk | crates/ohttp-hpke/src/client.rs:291-299 | header and encapsulated key, exactly |
| Handshake.DecodeRequestHeader | crates/ohttp-hpke/src/server.rs:262-295 | on every source refines the flat reading of header, key pair and encapsulated key |
| Handshake.ContextsAgree | crates/ohttp-hpke/src/client.rs:206-240 | from the wire bytes the server gets the context the client seals with and the same response context |
| Handshake.HeaderMissing | crates/ohttp-hpke/src/server.rs:262-295 | a request cut inside the header or the encapsulated key is refused |
| Handshake.DeriveAeadContext | crates/ohttp-hpke/src/response.rs:24-37 | key and initial nonce are derived from the context and the response nonce, and the counter starts at zero |
| Handshake.ReceiveResponseNonce | crates/ohttp-hpke/src/client.rs:376-392 | the client derives key and nonce from the response nonce it reads off the wire |
| Handshake.DeriveResponseContexts | crates/ohttp-hpke/src/server.rs:397-445 | from the request and the response nonce on the wire, the server's sealer and the client's opener have the same cipher, key and initial nonce, both at call zero |
| Handshake.ResponseAeadLawful | crates/ohttp-hpke/src/response.rs:49-74 | the derived response AEAD satisfies the sealing laws for 256^12 - 1 calls |
| EndToEnd.ExchangeRequest | crates/ohttp-hpke/src/server.rs:157-296 | from the fetched key table to the decoded request: for every request with scheme and authority, every body and every cutting and delaying between the layers, chunked or not, the server gets that request, that body and its clean end, and both sides hold the same response context |
| EndToEnd.FetchConfig | crates/ohttp-hpke/src/client.rs:26-52 | the fetched table is the server's own if and only if no empty chunk follows it |
| EndToEnd.SendRequest | crates/ohttp-hpke/src/client.rs:259-289 | the client's streams put exactly the bytes assumed there on the wire |
| EndToEnd.ExchangeResponse | crates/ohttp-hpke/src/client.rs:338-374 | the way back, known or indeterminate length, chunked or not: the client gets that response, that body and its clean end |
| EndToEnd.SendResponse | crates/ohttp-hpke/src/server.rs:397-445 | the server's streams put exactly the bytes assumed there on the wire |
| EndToEnd.OpenUnterminated | crates/ohttp-gateway-worker/src/lib.rs:94-109 | a request without its content terminator inside an intact encapsulation: always noticed when opened chunk by chunk, never when opened whole |
| EndToEnd.OpenPayload | crates/ohttp-hpke/src/decapsulated.rs:86-124 | any re-chunking of a sealed run opens to the plaintext that went in, through the nonce counter where there is one; opened chunk by chunk it always ends on an empty chunk, opened whole it is one reader without a limit of its own |
| EndToEnd.OpenTruncated | crates/ohttp-hpke/src/decapsulated.rs:86-124 | a chunked run cut before its end or broken off, whatever the buffer limit, opens to a prefix of the plaintext and then an error |
| EndToEnd.ReceiveTruncatedExchange | crates/ohttp-gateway-worker/src/lib.rs:104-109 | a sealed chunked request cut anywhere or broken off, on every source and with every limit: refused, or decoded to the whole request, headers included; and a clean body end means the whole body |
| EndToEnd.ReceiveTruncatedAnswer | crates/ohttp-hpke/src/client.rs:360-374 | the same for a sealed chunked response, in both length forms |
| H3Body.Writer.PollWrite | src/client/http3/body.rs:76-123 | sends in bounded frames exactly what the slots granted in a row have room for, the fin only on the frame that completes the buffer; the answer is decided by what stopped it, and counts fewer bytes than were sent exactly when a fin completed a non-empty buffer |
| H3Body.Writer.PollShutdown | src/client/http3/body.rs:202-214 | sends the fin in exactly one empty frame of its own, once, exactly when a slot is granted, and nothing else; is ready exactly unless the channel is busy |
| H3Body.ShortCount | src/client/http3/body.rs:105-122 | a concrete write of one octet with a fin that sends it and answers zero |
| H3Body.RunWriter | src/client/http3/body.rs:192-215 | over every sequence of writes and shutdowns: bounded frames, at most one fin and it last, and with an open channel exactly the accepted bytes |
| H3Body.SendHyperBody | src/client/http3/body.rs:226-270 | sends exactly the frames of the body, its chunks in full frames and what is left over, then one lone fin, or a stream error where the body breaks off; a prefix of them if the channel takes no more |
| H3Body.Reader.PollRead | src/client/http3/body.rs:125-179 | delivers, up to the capacity, all there is before the next wait; is not ready exactly when a wait comes first; delivered plus pending is what was received up to the fin; ready without bytes before the end if and only if the reader is stalled behind empty frames |
| H3Body.StalledRead | src/client/http3/body.rs:170-176 | a concrete read that is ready without bytes while data is still to come |
| H3Body.RunReader | src/client/http3/body.rs:125-179 | reads of any capacities deliver exactly the received bytes in order |
| H3Body.ReadToFin | src/client/http3/body.rs:125-179 | reading until an answer without bytes gets everything up to the fin when no frame without a fin is empty |
| H3Body.ArrivalWhole | src/client/http3/body.rs:76-179 | frames with one fin at the end, after any delays, carry up to the fin exactly their data |
| H3Body.Transfer | src/client/http3/body.rs:76-215 | over any writes and shutdowns on an open channel and any delays, a reader gets exactly the bytes the writer accepted |
| H3Connection.Connection.HandleEvent | src/client/http3/connection.rs:136-234 | one turn of the state machine that `H3Connection.FiresExactly` and `H3Connection.AliveExactly` describe from the inputs alone |
| H3Connection.Connection.HandleClientRequest | src/client/http3/connection.rs:238-294 | takes the next id of the process-wide counter, and waits for it only if the driver took the request |
| H3Connection.Run | src/client/http3/connection.rs:99-134 | the loop sends exactly what the run of the state machine fires, and nothing after it stops |
| H3Connection.FiresOnce | src/client/http3/connection.rs:207-219 | in every run no request is answered twice |
| H3Connection.FiresOwnStream | src/client/http3/connection.rs:184-222 | in every run a request is answered only with headers from the stream it was bound to |
| H3Connection.NeverAfterReset | src/client/http3/connection.rs:224-230 | with a driver that binds each issued request to one fresh stream, no request is answered from a stream reset before its headers |
| H3Connection.FiresExactly | src/client/http3/connection.rs:184-222 | told from the inputs alone: the connection answers exactly when it is alive and valid headers come on a stream bound to a request that was issued and waits |
| H3Connection.StopsExactly | src/client/http3/connection.rs:136-234 | a running connection stops exactly on a fatal event, an untaken request, second settings, headers on an unbound stream, or invalid headers for a waiting request |
| H3Connection.AliveExactly | src/client/http3/connection.rs:99-134 | it is running exactly as long as no such input has come |
| H3Connection.AnswerArrives | src/client/http3/connection.rs:207-219 | one request, its stream, its headers: it is answered |

## Left out

- The internals of HPKE, HKDF and the AEADs, and the dispatch over algorithm triples: foreign cryptography, present only through the laws named above.
- The `octets`, `bytes` and `http` crates as code: varints follow section 16 of RFC 9000, http parsers are the `Grammar`, and the size limit at which a header map panics is not modelled.
- Targets whose `usize` is narrower than 62 bits: a varint always converts.
- Trailers and padding: the decoder never reads past the content.
- Known-length request encoding: the source has only a placeholder for it.
- Randomness is a parameter; wakers, task spawning, logging and redaction are absent.
- The exact positions of waits in the output of the opener: only its plaintext, its ending and its trail are described.
- `src/client/http2.rs`, `src/client/ohttp.rs`, `src/client/request.rs`, `src/client/cert.rs`, `src/client/resolver.rs`, `src/args.rs`, `src/pat.rs` and, but for the order in which it opens and decodes a request, `crates/ohttp-gateway-worker`: plumbing and table lookups that would only add easy members.
- H3Connection.Connection.HandleClientRequest: request ids are unbounded; the wrap-around of the 64-bit counter is not modelled. The counter is one for the process, so the ids other connections drew in between are part of the input.
