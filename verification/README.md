# Verified model of the HTTP/1.1 message engine

This project models the message engine of the C++ client: the incremental response parser with the chunked
decoder inside it, URL parsing and redirect resolution, request printing, and the client that keeps at most
one connection and follows redirects. `dafny verify dfyconfig.toml` checks all of it.

How the parts are built:

- Code that changes state step by step keeps its form. `ChunkedDecoder`, `ResponseParser`, `NativeSocket`,
  `TcpConnection` and `Client` are classes with the source's fields; the validators, lexers, printers and the
  read and redirect loops are methods with loops. Each is proved equal to a function of its inputs (`Decode`,
  `Fed`, `Ended`, `ParseUrl`, `Resolved`, `Serialized`, `Next`) or to a step of the whole state (`Steps`).
- The theorems are about those functions, against definitions that do not mention them: grammars with their
  own printers (`Coding`, `Message`, `IsHead`, `IsExtensionList`), also for texts that are chunked only so far or
  no longer (`IsOpen`, `IsBroken`), the algorithms of sections 5.2.2 to 5.2.4 of RFC 3986, a percent decoder, a
  reader of request streams.
- Statuses, field names, methods, limits and character classes stand in the theorems themselves (`IsBody`,
  `IsRefused`, `IsRewritten`, `SentOn`, `FieldsOnWire`, the lists of `AlphabetProofs`), not only in the functions.
- The source's `while (true)` over a `switch` becomes one method per stage and a loop that calls them. A string
  the source takes by reference and changes is an in-parameter and an out-parameter.
- The network is an oracle: every connect, send and receive may fail in any of the source's ways, and a receive
  may return any bytes. A ghost book records, per handle, the host and port it was opened to, what was sent, what
  was read, the exchanges made on it, and whether it is closed.
- `std::size_t` is a natural below 2^64; `from_chars` and `to_chars` are digit loops with overflow. Text is a
  sequence of characters standing for bytes; only percent decoding needs them below 256, and says so.

Where the source falls short of a clean statement the theorem gives the exact condition and a witness:

- A cut in the input changes the outcome in exactly two cases, both told from the bytes (`CutExact`,
  `SegmentationErrors`). In all others a cutting fails or succeeds, and with the code, as the whole does.
  - The bytes before the cut end in a line of exactly the permitted length and its CR, an LF follows, and the whole
    does not fail with the limit error (`IsSaved`). The front does: the test on an unfinished line counts that CR,
    the test on a finished one does not. The whole comes to what the line is worth: one of the two size-line errors,
    the limit error after all for too large a chunk, or what the rest of the body comes to (`ComesTo`). Witnesses:
    `LoneCrCutWitness`, where the whole completes, and `LoneCrCodeWitness`, where it fails with another code.
  - A chunked 205 holds forbidden data before the cut, and with the bytes after it is no longer chunked: the
    decoder's error then comes before the test for a forbidden body (`IsPreempted`, `PreemptionWitness`).
- Dot-segment removal differs from section 5.2.4 of RFC 3986 exactly on paths that end in a dot segment and whose
  last surviving segment is empty (`DotSegmentsRefine`, `LostSegmentWitness`).
- Parameters appended to a query that ends in '?' are glued to its last item, and in no other case
  (`ItemsAppended`, `GluedWitness`).
- A location with an authority of its own keeps its dot segments, which section 5.2.2 would remove: the two targets
  agree exactly when its path has none (`AbsoluteAsWritten`, `AbsoluteWitness`).
- A location with the scheme http gets the error for another scheme when its first "://" is not right after its scheme
  (`AbsoluteAsWritten`, `SchemeWitness`).

Files, bottom up: `Results`, `Text`, `Limits`; `ChunkLine`, `Chunked`, `ChunkedProofs`, `VerdictProofs`;
`Heads`, `HeadProofs`, `Parser`, `ParserProofs`, `MessageProofs`, `CutProofs`, `FramingProofs`, `FailureProofs`;
`Urls`, `UrlProofs`, `Redirects`, `RedirectProofs`; `Serializer`, `SerializerProofs`, `AlphabetProofs`; `Sockets`,
`Client`, `ClientProofs`, `PeerProofs`, `RunProofs`, `ClientRuns`.

## Model

| member | source | states |
|---|---|---|
| MessageProofs.ParserExact | src/http/response_parser.cpp:333-505 | the parser completes with response r and leftover rest exactly when the input is interim heads, a final head and the body its framing calls for, meaning r, followed by rest |
| MessageProofs.EofExact | src/http/response_parser.cpp:507-536 | end of stream completes an unfinished response exactly when its framing reads to the end of the stream, and then the body is all that came |
| MessageProofs.ForbiddenBodyIsEmpty | src/http/response_parser.cpp:389-423 | no accepted message for HEAD or with status 101, 204, 205 or 304 has a body |
| MessageProofs.FramingExact | src/http/response_parser.cpp:252-305 | the analysis accepts exactly the headers with numeric lengths, one length at most and no empty transfer coding |
| MessageProofs.DecideExact | src/http/response_parser.cpp:370-451 | for each framing, the condition on method, status and fields under which it is chosen, if and only if; everything else is rejected |
| FramingProofs.ResponseExact | src/http/response_parser.cpp:333-505 | the parser completes with r exactly on heads to pass over, a final head within the limit and the body that its status and fields call for, every status and name written out, and leaves what follows |
| FramingProofs.BodyExact | src/http/response_parser.cpp:384-503 | what a final head carries: nothing for 101 and 204, which may not announce any, nothing for HEAD and 304 whatever they announce, and else exactly n bytes for Content-Length: n or the data of one chunked coding; and no data in a 205 |
| FramingProofs.PassedOverExact | src/http/response_parser.cpp:370-376 | a head is passed over exactly if 100 <= status < 200, the status is not 101, and it announces no body |
| FramingProofs.ToTheEndExact | src/http/response_parser.cpp:400-450 | the body runs to the end of the stream exactly if the fields announce none and neither method nor status rules it out |
| FramingProofs.RefusedExact | src/http/response_parser.cpp:252-451 | a head is refused with a code exactly for the first field that cannot be read, a second length, length and coding together, either where there must be none, a coding that is not chunked, or a length that is too large or not permitted |
| FramingProofs.EndExact | src/http/response_parser.cpp:507-536 | end of stream completes exactly such a response, with all that came as its body |
| FramingProofs.EndFails | src/http/response_parser.cpp:507-536 | otherwise it fails, and always with UnexpectedEof |
| FramingProofs.ReusableExact | src/http/response_parser.cpp:542-546 | after exactly s the connection may be used again if and only if s is one whole response that ends itself, no 101, and without a Connection field that lists close |
| FramingProofs.ClosesExact | src/http/response_parser.cpp:256-259 | the close flag is set exactly if some Connection field has an item close between its commas |
| FramingProofs.ListsExact | src/http/response_parser.cpp:124-143 | a value has a token exactly if the token is one of its comma items, trimmed and ignoring case |
| FailureProofs.FailureExact | src/http/response_parser.cpp:333-505 | the parser fails with a code exactly on heads to pass over and then one that is too long, has a bad line or is refused, or a final one whose body is broken, too long or not permitted, with that code |
| FailureProofs.HeadFails | src/http/response_parser.cpp:158-237 | which lines are no head, and with which code |
| ParserProofs.FeedSplit | src/http/response_parser.cpp:333-505 | feeding a then b is feeding a + b in every field; a failing a makes a + b fail unless it stops at a lone CR, with the same code exactly unless preempted |
| ParserProofs.Segmentation | src/http/response_parser.cpp:333-505 | any cutting whose feeds all succeed leaves every field as one feed of the whole does |
| CutProofs.SegmentationExact | src/http/response_parser.cpp:333-505 | when one feed of the whole succeeds, a cutting succeeds if and only if no cut is right after heads that announce a chunked body, whole chunks, a size line of exactly the permitted length, and its CR |
| CutProofs.SegmentationErrors | src/http/response_parser.cpp:333-505 | whenever a cutting fails, the whole fails in the same way if and only if the piece that fails leaves no lone CR that is saved and is not preempted; without a lone CR the whole fails anyway, with one it comes to what the completed line does |
| CutProofs.CutExact | src/http/response_parser.cpp:333-505 | one cut anywhere: a front that parses is carried on as in the whole; a front that fails has the outcome of the whole if and only if no LF saves its lone CR and its code is not preempted; what the whole of a lone CR comes to, case by case |
| CutProofs.ExceptionsExact | src/http/response_parser.cpp:453-503 | the two exceptions, met inside the machine, are exactly those forms of the text: a lone CR, and a 205 whose data is chunked before the cut and no longer after it |
| CutProofs.ChunkedOutcome | src/http/response_parser.cpp:453-503 | after heads that announce a chunked body, the error code of a feed, or completion, from the text of the body alone |
| CutProofs.LoneCrOutcome | src/http/chunked_decoder.cpp:277-310 | a lone CR not followed by LF fails the whole with the limit error; followed by LF, the line gives its own error, the limit error for too large a chunk, or decoding goes on |
| CutProofs.LoneCrCodeWitness | src/http/chunked_decoder.cpp:277-289 | the bytes of a 200 response that end in InvalidChunkSize in one piece and in ResponseLimitExceeded in two |
| CutProofs.LoneCrCutWitness | src/http/chunked_decoder.cpp:277-289 | the bytes of a whole 200 response that parse in one piece and fail when cut between CR and LF of a size line |
| CutProofs.PreemptionWitness | src/http/response_parser.cpp:487-493 | the bytes of a 205 response that end in InvalidChunkFraming in one piece and in MalformedResponse in two |
| ParserProofs.NoLookahead | src/http/response_parser.cpp:340-505 | a complete message followed by any bytes gives the same response and leaves exactly those bytes |
| ParserProofs.PrefixFree | src/http/response_parser.cpp:340-505 | no complete message is a proper prefix of another, for one method and limits |
| ParserProofs.FeedBounded | src/http/response_parser.cpp:340-505 | a feed keeps body plus announced bytes within the limits, and keeps no more buffer than the stage's limit |
| ParserProofs.ReachableBounded | src/http/response_parser.cpp:333-505 | so does every state reachable by any cutting |
| Parser.ResponseParser.constructor | src/http/response_parser.cpp:326-331 | a fresh parser is in the start state |
| Parser.ResponseParser.Feed | src/http/response_parser.cpp:333-338 | progress, error and every field are those of `Fed` |
| Parser.ResponseParser.ProcessBuffer | src/http/response_parser.cpp:340-505 | the loop over the stages computes `Fed` of no new bytes, and ends |
| Parser.ResponseParser.ProcessHeads | src/http/response_parser.cpp:343-451 | skips interim heads and accepts the final one as `ReadHeads` says |
| Parser.ResponseParser.AcceptHead | src/http/response_parser.cpp:364-450 | the branches on status and counters decide as the framing rules decide from method, status and header list |
| Parser.ResponseParser.AcceptFinal | src/http/response_parser.cpp:378-450 | the state after a final head is the one its decision calls for |
| Parser.ResponseParser.ChooseBody | src/http/response_parser.cpp:400-450 | the body stage, the announced length and the flags that status and counters lead to, a 205 among them |
| Parser.FinalDecision | src/http/response_parser.cpp:384-450 | deciding from the counters is deciding from the list of fields |
| Parser.ResponseParser.ProcessBody | src/http/response_parser.cpp:453-503 | the body stages move bytes as `Deliver` says |
| Parser.ResponseParser.FinishEof | src/http/response_parser.cpp:507-536 | end of stream has the effect and the errors of `Ended` |
| HeadProofs.HeadSound | src/http/response_parser.cpp:158-237 | what is taken for a head is the lines of one, up to the first empty line |
| HeadProofs.HeadComplete | src/http/response_parser.cpp:158-237 | the lines of a head are found whole, parse to its meaning, and end at exactly the first empty line |
| HeadProofs.FieldLineSound | src/http/response_parser.cpp:213-228 | an accepted field line is name, colon, padding, trimmed value, padding |
| HeadProofs.FieldLineComplete | src/http/response_parser.cpp:213-228 | every such line is accepted with that name and value |
| HeadProofs.StatusLineComplete | src/http/response_parser.cpp:164-195 | every status line of the grammar parses to its code and reason |
| HeadProofs.StatusLineSound | src/http/response_parser.cpp:164-195 | every accepted status line is one of the grammar |
| Heads.ParseHead | src/http/response_parser.cpp:158-237 | the cursor loop over the lines computes `HeadOf` |
| Heads.ParseStatus | src/http/response_parser.cpp:164-195 | version, three digits, optional reason; or InvalidStatusLine |
| Heads.ParseLine | src/http/response_parser.cpp:213-228 | one field line; or InvalidHeader |
| Heads.AnalyzeFraming | src/http/response_parser.cpp:252-305 | the counters are the numbers of framing fields and codings in the whole list, the error is that of the first bad field |
| Heads.CountCodings | src/http/response_parser.cpp:273-297 | fails exactly on an empty item, counts the items, and knows whether all are chunked |
| ChunkedProofs.DecodeExact | src/http/chunked_decoder.cpp:270-387 | a fresh decoder completes with body and leftover exactly when the input is size lines with their data and CRLF, a zero chunk, trailers, an empty line and that leftover, within the limits |
| ChunkedProofs.ChunksSound | src/http/chunked_decoder.cpp:270-387 | what completes is a coding of the grammar, whose data is the body appended |
| ChunkedProofs.ChunksComplete | src/http/chunked_decoder.cpp:270-387 | every coding of the grammar completes, whatever body precedes it and whatever follows |
| ChunkedProofs.EncodeRoundTrip | src/http/chunked_decoder.cpp:270-387 | any partition of any body, encoded with shortest sizes, decodes to the body and stops right after it |
| ChunkedProofs.DecodeSplit | src/http/chunked_decoder.cpp:270-387 | decoding a then b is decoding a + b in every field and status, but for the lone CR |
| ChunkedProofs.DecodeCutExact | src/http/chunked_decoder.cpp:277-289 | when the whole decodes, a prefix fails if and only if its text is whole chunks, a size line of exactly the permitted length, and a CR |
| ChunkedProofs.LoneCrExact | src/http/chunked_decoder.cpp:277-289 | the decoder stops at a lone CR exactly on whole chunks, a line of exactly the permitted length (a size line or not), and a CR |
| VerdictProofs.VerdictExact | src/http/chunked_decoder.cpp:270-387 | the decoder needs more exactly on whole chunks and part of a size line, of a chunk or of the trailers; it fails with a code exactly on whole chunks and the wrong line, size, data end or trailer that has that code |
| VerdictProofs.OneVerdict | src/http/chunked_decoder.cpp:270-387 | a text has gone wrong if and only if it is neither chunked so far nor holds a chunked body, and it is never both of these |
| VerdictProofs.DataExact | src/http/chunked_decoder.cpp:312-328 | the decoder has put out data exactly if a byte follows a first size line that is not zero and within the limits |
| VerdictProofs.LoneCrGoesOn | src/http/chunked_decoder.cpp:277-310 | what the decoder makes of a lone CR when more bytes come with it |
| ChunkedProofs.LoneCrWitness | src/http/chunked_decoder.cpp:280-289 | an input that completes whole and fails when cut there |
| ChunkedProofs.DecodeKeeps | src/http/chunked_decoder.cpp:270-387 | completion is the last stage, the body only grows, no byte is made up, and the limits are kept |
| ChunkedProofs.DecodeBounded | src/http/chunked_decoder.cpp:277-381 | decoded plus announced bytes and trailer bytes stay within the limits, at most one byte waits for a data CRLF |
| ChunkedProofs.DecodeErrors | src/http/chunked_decoder.cpp:270-387 | the decoder never reports a malformed response itself |
| Chunked.ChunkedDecoder.constructor | src/http/chunked_decoder.hpp:18-19 | a fresh decoder waits for a size line with nothing counted |
| Chunked.ChunkedDecoder.Process | src/http/chunked_decoder.cpp:270-387 | fields, remaining input, output and result are those of `Decode`; the input is untouched on an error |
| Chunked.ChunkedDecoder.ReadSizeLine | src/http/chunked_decoder.cpp:277-310 | one turn in the size-line stage is one step of `Decode` at the cursor |
| Chunked.ChunkedDecoder.ReadData | src/http/chunked_decoder.cpp:312-328 | one turn in the data stage is one step of `Decode` |
| Chunked.ChunkedDecoder.ReadDataCrlf | src/http/chunked_decoder.cpp:330-340 | one turn in the data-CRLF stage is one step of `Decode` |
| Chunked.ChunkedDecoder.ReadTrailerLine | src/http/chunked_decoder.cpp:342-380 | one turn in the trailer stage is one step of `Decode` |
| ChunkLine.ExtensionsExact | src/http/chunked_decoder.cpp:172-213 | the recogniser accepts exactly the printed forms of lists of padded name[=token or quoted-string] items |
| ChunkLine.ValidChunkExtensions | src/http/chunked_decoder.cpp:172-213 | the cursor-threading loop accepts exactly that language, and ends |
| ChunkLine.SizeLineSound | src/http/chunked_decoder.cpp:215-240 | an accepted size line is hex digits denoting the size, padding, and extensions if any |
| ChunkLine.SizeLineComplete | src/http/chunked_decoder.cpp:215-240 | every such line with a size below 2^64 is accepted with that size |
| ChunkLine.ParseChunkSize | src/http/chunked_decoder.cpp:215-240 | the source's order of tests and errors |
| ChunkLine.ChunkSizeExact | src/http/chunked_decoder.cpp:215-240 | a line is accepted exactly if it is a size line below 2^64; the error is InvalidChunkFraming exactly if something before the first ';' is no whitespace and what follows it is no extension list, and InvalidChunkSize otherwise |
| ChunkLine.ParseQuotedString | src/http/chunked_decoder.cpp:137-170 | the cursor ends right after the closing quote, or the text is no quoted-string |
| ChunkLine.ParseToken | src/http/chunked_decoder.cpp:110-119 | the cursor ends after the longest run of token characters |
| ChunkLine.SkipOws | src/http/chunked_decoder.cpp:103-108 | the cursor ends after the longest run of optional whitespace |
| ChunkLine.ValidTrailerLine | src/http/chunked_decoder.cpp:242-260 | a trailer line has a token name that is no framing field and a clean value |
| UrlProofs.ParseExact | src/core/url.cpp:109-248 | a text parses to given parts if and only if it is scheme, "://", authority, tail and possibly a fragment that mean those parts |
| UrlProofs.FailsExact | src/core/url.cpp:109-248 | what a text fails with: InvalidUrl if it has a forbidden byte or nothing before a "://", else UnsupportedScheme if that is not http in any case, else InvalidPort if a good host is followed by ':' and no port, else InvalidUrl if and only if it is no URL of the grammar |
| UrlProofs.UrlSound | src/core/url.cpp:109-248 | what is accepted is such a text, its pieces in place |
| UrlProofs.UrlComplete | src/core/url.cpp:109-248 | every such text is accepted, any case of the scheme, any digits of the port, any fragment |
| UrlProofs.AuthoritySound | src/core/url.cpp:155-216 | an accepted authority is a host or bracketed literal, and possibly ':' and the digits of a port in range |
| UrlProofs.AuthorityComplete | src/core/url.cpp:155-216 | every such authority is accepted with that host, port and flags |
| UrlProofs.ParseValid | src/core/url.cpp:109-248 | every parsed URL has a rooted path without '?', a clean host, a port in range and valid escapes |
| UrlProofs.CanonicalRoundTrip | src/core/url.cpp:109-248 | origin plus target of any valid URL parses back to the same host, port, flags, path and query |
| UrlProofs.OriginPlus | src/http/redirect.cpp:66-81 | any rooted target put after an origin parses to that authority and target, or fails exactly on a bad escape |
| UrlProofs.HostPortParses | src/core/url.cpp:155-216 | a printed host and port parse back, bracketed literals included |
| Urls.Parse | src/core/url.cpp:109-248 | the offsets are in bounds and every accessor gives its part, also after the in-place insertion of '/'; errors agree |
| Urls.FindHost | src/core/url.cpp:155-216 | host offset, size, port and flags are those of the authority's meaning |
| Urls.FindLiteral | src/core/url.cpp:160-187 | the same for a bracketed literal |
| Urls.FindName | src/core/url.cpp:187-212 | the same for a name |
| Urls.LocateTarget | src/core/url.cpp:224-247 | path, query and target offsets cut the stored text at the first '?', and bad escapes are rejected |
| Urls.ValidPercentEscapes | src/core/url.cpp:57-71 | true exactly when every '%' starts an escape of two hex digits |
| Urls.ContainsForbiddenUrlByte | src/core/url.cpp:41-49 | true exactly when some byte is a control, a space or DEL |
| Urls.ParsePort | src/core/url.cpp:89-105 | a decimal number from 1 to 65535, or InvalidPort |
| Urls.SlashInserted | src/core/url.cpp:218-222 | inserting the missing '/' moves no byte of the scheme or host |
| RedirectProofs.DotSegmentsRefine | src/http/redirect.cpp:83-126 | agrees with section 5.2.4 of RFC 3986 if and only if the path does not end in a dot segment after an empty survivor |
| RedirectProofs.LostSegmentWitness | src/http/redirect.cpp:114-124 | a path on which the two differ |
| RedirectProofs.DotSegmentsGone | src/http/redirect.cpp:83-126 | the result is rooted, has no dot segment, and a second removal leaves it alone |
| RedirectProofs.RelativeKeepsOrigin | src/http/redirect.cpp:175-226 | a relative location resolves if and only if the target of section 5.2.2, with the library's removal, has no forbidden byte and only whole escapes; then it keeps host, port and flags, has that target and no fragment; otherwise the error is InvalidUrl |
| RedirectProofs.TargetRefines | src/http/redirect.cpp:196-225 | that target is the RFC's own if and only if no dot segments are removed or the removal agrees |
| RedirectProofs.AbsoluteAsWritten | src/http/redirect.cpp:136-192 | a location that names its authority resolves, whatever the base, if and only if its scheme is http in any case or missing and its text without its fragment is a URL of the grammar, and then to that text; otherwise the error by its text; the target is that of section 5.2.2 if and only if its path has no dot segment |
| RedirectProofs.SchemeWitness | src/http/redirect.cpp:136-188 | "http:x://y" has the scheme http and gets the error for another scheme, whatever the base |
| RedirectProofs.NothingToRemove524 | src/http/redirect.cpp:182-192 | section 5.2.4 leaves a rooted path alone if and only if it has no dot segment |
| RedirectProofs.AbsoluteWitness | src/http/redirect.cpp:182-192 | //h/a/../b resolves with its path as written, where section 5.2.2 has /b |
| RedirectProofs.ResolvedParses | src/http/redirect.cpp:136-146 | whatever a location resolves to is a URL without a fragment |
| Redirects.RemoveDotSegments | src/http/redirect.cpp:83-126 | the push and pop loop keeps exactly the surviving segments and the trailing slash rule |
| Redirects.JoinSegments | src/http/redirect.cpp:106-112 | the printing loop writes the segments with '/' between them |
| Redirects.FindScheme | src/http/redirect.cpp:44-64 | the loop finds the index of the ':' that ends the scheme, or none |
| Redirects.SchemeEndExact | src/http/redirect.cpp:44-64 | that index is i if and only if the text is a letter, then scheme characters up to i, and ':' at i |
| Redirects.BuildOrigin | src/http/redirect.cpp:66-81 | scheme, host in brackets if IPv6, and the port if explicit |
| Redirects.ValidateRedirectUrl | src/http/redirect.cpp:136-146 | strips the fragment, keeps a URL, renames the scheme error |
| Redirects.ResolveRedirectLocation | src/http/redirect.cpp:175-226 | the branches on the location's first characters compute `Resolved` |
| SerializerProofs.AppendCommutes | src/http/request_serializer.cpp:106-128 | if the URL parses so does the effective URL, to the same authority, and its target is byte for byte the one on the request line |
| SerializerProofs.QueryDecodes | src/http/request_serializer.cpp:91-128 | split on '&' and '=' and percent-decoded, the appended pairs are the parameters in order |
| SerializerProofs.QueryInjective | src/http/request_serializer.cpp:91-128 | parameter lists that append alike are equal |
| SerializerProofs.ItemsAppended | src/http/request_serializer.cpp:106-128 | the appended pairs are items of their own after those already there if and only if the query there does not end in '?' |
| SerializerProofs.GluedWitness | src/http/request_serializer.cpp:113-118 | a target ending in '?' and a parameter that become one item |
| SerializerProofs.EncodedDecodes | src/http/request_serializer.cpp:91-104 | percent encoding is well escaped and decodes to its input |
| SerializerProofs.AppendKeepsEscapes | src/http/request_serializer.cpp:106-128 | appending parameters keeps every escape valid |
| SerializerProofs.HeadRoundTrip | src/http/request_serializer.cpp:275-319 | the head reads back to the method asked for, the target and the fields due on the wire in order, values trimmed; its only empty line is the one that ends it |
| SerializerProofs.MethodReads | src/http/request_serializer.cpp:13-23 | each method is written with its own name, the one a server reads it by |
| SerializerProofs.WireFieldsAre | src/http/request_serializer.cpp:275-317 | the fields on the wire are a Host if none is given, the given ones, and a Content-Length if none is given and there is a body or the method is POST, PUT or PATCH |
| SerializerProofs.RefusedRequest | src/http/request_serializer.cpp:229-273 | a request is refused with a code exactly if its URL fails with it, or a field or a length is bad with it, the first one deciding |
| SerializerProofs.WireFraming | src/http/request_serializer.cpp:300-316 | exactly one Host, at most one Content-Length, whose value is the body's size, and none only if the body is empty |
| SerializerProofs.AcceptableExact | src/http/request_serializer.cpp:229-273 | a request serializes if and only if its URL parses, its fields are well formed, and Host and Content-Length occur once at most, truthfully |
| Serializer.SerializeRequest | src/http/request_serializer.cpp:229-320 | head, body, URL and errors are those of `Serialized` |
| Serializer.CheckFields | src/http/request_serializer.cpp:240-273 | the validation loop's verdict and counters |
| Serializer.WriteHead | src/http/request_serializer.cpp:295-318 | the appends write the request line, the fields and the empty line |
| Serializer.AppendGeneratedHost | src/http/request_serializer.cpp:190-205 | a Host line with the host and port the URL names |
| Serializer.AppendFields | src/http/request_serializer.cpp:304-309 | one line per given field, in order |
| Serializer.AppendQueryParams | src/http/request_serializer.cpp:106-128 | the separator rule and the pairs, appended in place |
| Serializer.AppendPercentEncoded | src/http/request_serializer.cpp:91-104 | each byte as itself or as an upper-case escape |
| Serializer.EffectiveRequestUrl | src/http/request_serializer.cpp:218-227 | the URL without its fragment, with the parameters appended |
| ClientProofs.ChainForm | src/core/client.cpp:222-291 | hop i's headers are the first headers rewritten once for all that happened before, its body is the original or empty, and after a drop its method is GET or HEAD |
| RunProofs.AnswersExact | src/core/client.cpp:355-387 | an exchange returns r from the bytes read exactly if they begin with a response that means r, or are one that runs to the end of the stream |
| RunProofs.ExplainsExact | src/core/client.cpp:296-402 | an exchange fails with a code exactly if the network may, the bytes read are bad with that code, or they end before the response does |
| RunProofs.KeptExact | src/core/client.cpp:387-399 | a connection is kept if and only if the bytes read are exactly one whole response that ends itself, the one returned, no 101, and neither it nor the request has a Connection field that lists close |
| RunProofs.ReuseExact | src/core/client.cpp:303-335 | no connection is opened if one is kept for the same port and, whatever the case, host; otherwise exactly one, or none and the error is the network's |
| RunProofs.RedirectExact | src/core/client.cpp:222-291 | after each redirect of a run: its status is one of five, 303 leaves HEAD or GET without a body, 301 and 302 turn a POST to GET without a body, and else method and body stay; the URL is what the first Location field resolves to, and the parameters are gone |
| RunProofs.MethodKept | src/http/redirect.cpp:148-173 | after nothing but 307 and 308, hop i has the first request's method and body |
| RunProofs.MethodOfHop | src/http/redirect.cpp:158-173 | hop i's method is the first request's until a 303, or a 301 or 302 to a POST, and GET after that, or HEAD if it was HEAD |
| RunProofs.BodyOfHop | src/http/redirect.cpp:148-173 | hop i's body is the first request's, or none exactly if a 303, or a 301 or 302 to a POST, came before |
| RunProofs.HeadersOfHop | src/core/client.cpp:82-123 | hop i's headers are the first request's, without the four sensitive names exactly if some redirect before led to another port or host, and without the three entity names exactly if one dropped the body |
| RunProofs.RunExact | src/core/client.cpp:210-294 | what a run returns: the last error, the last response if redirects are not followed or it is none of the five, the limit error exactly if all permitted redirects are used, or why the redirect leads nowhere |
| ClientProofs.ChainCarries | src/core/client.cpp:108-123 | hop headers are an in-order selection of the original; a sensitive field survives only at the original origin; no entity header survives a dropped body |
| ClientProofs.OriginKept | src/core/client.cpp:82-93 | as long as no redirect crosses, every hop has the first hop's origin |
| ClientProofs.RedirectedCompose | src/core/client.cpp:108-123 | rewriting headers twice is rewriting them once for both reasons |
| ClientProofs.RedirectedPicked | src/core/client.cpp:108-123 | what survives is an order-preserving selection of fields that may be sent on |
| ClientProofs.LaterHopsSerialize | src/core/client.cpp:266-287 | once the first request serializes, the request of every hop does |
| ClientProofs.LaterErrorsAreExchanges | src/core/client.cpp:287-290 | an error after the first exchange comes from the network or from the response, never from local validation |
| ClientProofs.RunEnds | src/core/client.cpp:210-294 | at most 1 + max exchanges; success while following is a non-redirect status |
| ClientProofs.InStep | src/core/client.cpp:355-399 | whole responses to the same requests, in streams of which one is a prefix of the other, agree one by one |
| ClientProofs.ExchangesMatchResponses | src/core/client.cpp:304-399 | on a kept connection whose peer serves one response per request, the i-th exchange used exactly the i-th response |
| ClientProofs.RequestsInStep | src/core/client.cpp:337-399 | what was sent on a kept connection reads back, head by head and body by Content-Length, as exactly the requests of its exchanges, in order, nothing left over |
| SerializerProofs.RequestReads | src/http/request_serializer.cpp:295-319 | a reader that takes the head to the first empty line and then Content-Length bytes finds a printed request at the front of any stream, and stops right after it |
| ClientProofs.ExchangeReturnsResponse | src/core/client.cpp:304-402 | against a peer that serves one response per request, every answered request, on a new or reused connection that is then kept or closed, returns exactly the response served for it |
| ClientProofs.AnswerIsResponse | src/core/client.cpp:355-385 | bytes read that agree with a whole response, as far as both go, give no answer but that response |
| Clients.StepKeeps | src/core/client.cpp:296-402 | any exchange, whatever its outcome, conserves handles and leaves a kept connection live, opened to the origin it is kept for, and at a message boundary |
| Clients.ConservedTransitive | src/core/client.cpp:210-294 | conservation holds over any number of exchanges |
| Clients.SettledConserves | src/core/client.cpp:303-402 | acquiring, exchanging, and keeping or closing lose no handle and touch no other |
| Clients.RecordInSync | src/core/client.cpp:387-399 | a connection at a boundary is at a boundary again after a whole exchange that may be kept |
| Clients.Client.constructor | include/cpp_request/client.hpp:18-18 | a new client owns nothing |
| Clients.Client.ExecuteOnce | src/core/client.cpp:296-402 | a step of the whole state: which connection and to what origin, what was sent and read, what is returned, and what is kept or closed |
| Clients.Client.Acquire | src/core/client.cpp:303-335 | the kept connection if the origin agrees, otherwise it is closed and a new one opened to the given host and port; either way it leads to that origin |
| PeerProofs.StepUses | src/core/client.cpp:296-402 | an exchange writes and reads on one connection at most, opened to the origin of its request, and sends nothing but that request from the front |
| PeerProofs.HopGoesHome | src/core/client.cpp:222-291 | in any run, hop i writes only on connections opened to the origin of hop i's own URL |
| PeerProofs.SensitiveStays | src/core/client.cpp:82-123 | a hop whose headers hold a Host, Authorization, Proxy-Authorization or Cookie field of the first request writes only on connections opened to the first origin |
| PeerProofs.LedgerHistory | src/core/client.cpp:210-294 | a run adds to what was sent and read on each handle exactly its own hops, each on a handle opened to its origin |
| Clients.Client.Converse | src/core/client.cpp:337-402 | sends head and body, reads one response, and keeps the connection exactly when it may |
| Clients.Client.ReadResponse | src/core/client.cpp:355-385 | the read loop returns what the bytes read say, whatever pieces they came in |
| Clients.Client.ReadOnce | src/core/client.cpp:361-384 | one turn: bytes fed, end of stream finished, or an error passed on |
| Clients.Client.SendRequest | src/core/client.cpp:337-353 | exactly head and body are sent, or the connection is closed |
| Clients.Client.Keep | src/core/client.cpp:394-399 | the handle moves from the connection to the client |
| Clients.Client.Follow | src/core/client.cpp:236-285 | computes the next request; both failure branches of Url::parse are unreachable |
| Clients.Client.Run | src/core/client.cpp:210-294 | the hops form a chain the result follows from, each hop is a step of the state, and handles are conserved |
| Clients.Client.CloseReusableConnection | src/core/client.cpp:197-208 | closes the kept handle, if any, and owns nothing |
| Clients.Client.Destroy | src/core/client.cpp:161-163 | destruction closes what is owned |
| Clients.Client.MoveFrom | src/core/client.cpp:165-175 | the new client owns what the other owned, which then owns nothing |
| Clients.Client.MoveAssign | src/core/client.cpp:177-195 | the handle held before is closed, the other's taken over; self-assignment changes nothing |
| Clients.RedirectedHeaders | src/core/client.cpp:108-123 | the filtering loop keeps exactly the fields that may be sent on, in order |
| Clients.RequestWantsConnectionClose | src/core/client.cpp:72-80 | true exactly when some Connection field lists close |
| Clients.FieldValue | src/core/headers.cpp:65-86 | the first field of that name, ignoring case |
| Sockets.NativeSocket.constructor | src/platform/native_socket.hpp:26-27 | the socket owns the handle it is given |
| Sockets.NativeSocket.Release | src/platform/native_socket.hpp:56-58 | gives the handle up without closing it |
| Sockets.NativeSocket.Reset | src/platform/native_socket.cpp:25-35 | closes the old handle unless there is none or it is the replacement |
| Sockets.NativeSocket.Close | src/platform/native_socket.hpp:61-63 | closes the handle once and owns none |
| Sockets.NativeSocket.MoveAssign | src/platform/native_socket.hpp:37-42 | takes the other's handle and closes the one held |
| Sockets.TcpConnection.WriteAll | src/net/tcp_connection.cpp:104-194 | all is written, or part from the front and the socket is closed |
| Sockets.TcpConnection.ReadSome | src/net/tcp_connection.cpp:196-270 | some bytes arrive, or the socket is closed |
| ClientRuns.AnyRun | src/core/client.cpp:161-294 | after any sequence of requests, moves and destructions of any clients, every handle ever opened was closed exactly once, and all that was ever sent on it is requests for the origin it was opened to |
| ClientRuns.OwnersStep | src/core/client.cpp:161-208 | one client's call leaves the live handles exactly the owned ones, each owned once |
| ClientRuns.Pool.Request | src/core/client.cpp:210-294 | a request by one client leaves every client valid, and the ledger of all bytes sent and read true |
| ClientRuns.Pool.MoveConstruct | src/core/client.cpp:165-175 | a move construction keeps each live handle owned once |
| ClientRuns.Pool.MoveAssign | src/core/client.cpp:177-195 | so does a move assignment, self-assignment included |
| ClientRuns.Pool.Destroy | src/core/client.cpp:161-163 | so does a destruction |
| ClientRuns.Pool.DestroyAll | src/core/client.cpp:161-163 | destroying every client leaves nothing live |
| AlphabetProofs.TokenCharExact | src/http/response_parser.cpp:51-78 | a token character is a visible one that is no delimiter |
| AlphabetProofs.FieldCharExact | src/http/response_parser.cpp:94-105 | a field character is anything but the controls, HTAB apart |
| AlphabetProofs.QuotedCharExact | src/http/chunked_decoder.cpp:121-135 | quoted text is field text without quote and backslash |
| AlphabetProofs.UnreservedExact | src/http/request_serializer.cpp:81-89 | letters, digits and "-._~" |
| AlphabetProofs.SchemeCharExact | src/http/redirect.cpp:36-42 | letters, digits and "+-." |
| AlphabetProofs.ForbiddenExact | src/core/url.cpp:41-49 | a URL has no control, no space and no DEL |
| AlphabetProofs.EqualsExact | src/http/response_parser.cpp:36-49 | equal but for case is equal once each capital is the small letter of its place in the alphabet |
| AlphabetProofs.LowerExact | src/http/response_parser.cpp:30-34 | the capitals become the small letters of their place, nothing else changes |
| AlphabetProofs.DigitExact | src/http/chunked_decoder.cpp:60-101 | digits and letters have the values of their places, up to ten and up to F of either case |
| AlphabetProofs.EscapeExact | src/http/request_serializer.cpp:91-104 | a byte that is not unreserved becomes '%' and its two capital digits |
| AlphabetProofs.TrailerLineExact | src/http/chunked_decoder.cpp:242-260 | a trailer line is a token, ':' and text without controls, and the token is neither content-length nor transfer-encoding in any case |
| Text.ContainsToken | src/http/response_parser.cpp:124-143 | true exactly when some trimmed item of the comma list is the expected one, ignoring case |
| Text.TrimOws | src/http/response_parser.cpp:107-115 | the value without the whitespace around it |
| Text.TrimmedUnique | src/http/response_parser.cpp:107-115 | whatever whitespace is put around a trimmed text, trimming gives the text back |
| Text.FromChars | src/http/request_serializer.cpp:157-168 | the number the digits denote, or none for no digits, another character or overflow |
| Text.ToChars | src/http/request_serializer.cpp:170-178 | the decimal numeral of the number |
| Text.NumeralRoundTrip | src/http/request_serializer.cpp:170-178 | a printed number reads back |
| Limits.WouldExceed | src/http/response_parser.cpp:117-122 | the test by subtraction says whether the sum exceeds the limit, without overflow |

## Left out

- DNS, getaddrinfo, connect, poll and select, Winsock start-up, socket modes and errno classification: the network oracle stands for them (a connection's peer is the host and port asked for, not the address found), and sockets that a failed connect opens and closes by itself do not appear.
- Real time: a write or read may time out at any point, but no deadline is computed.
- The number of bytes peers will still send is finite and arbitrary; a peer that sends interim responses for ever is not modelled.
- Handles are numbered in opening order and never reused, so that one handle is one connection.
- Urls.IsIpv6Literal: which texts inet_pton accepts is left open; only the length bound and the absence of '%' are fixed.
- Clients.Client.MoveFrom: the host string of a moved-from client is arbitrary; nothing depends on it.
- Parser.ResponseParser.Feed: fields after an error are not described, as the client drops the parser then.
- Parser.ResponseParser.FinishEof: the same.
- Sockets.TcpConnection.WriteAll: how much of the data, from the front, went out before a failure is arbitrary.
- Native error numbers, string_view lifetimes, reserve calls, erase against cursor cost and allocation failure: representation only.
- The accessors of Request and Response, Headers::set, the one-line get, post and similar helpers, error messages, and the timeout setters: they would only add easy members.
- Benchmarks, examples, build files and the loopback test servers.
