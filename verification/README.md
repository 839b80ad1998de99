# Proofs about the emulator's bundled libraries

This project models the stateful code that the emulator carries in `externals/` and in its audio core, and proves what that code is
for: HTTP body codecs that undo each other over streams cut at arbitrary points, the locking of the HTTP thread pool and
client, the permuting option scanner, the profiler's log, its time accounting and its pool of thread logs, and the ADPCM
decoder.

`dafny verify dfyconfig.toml` checks everything.

## How it is laid out

| files | what they model |
|---|---|
| `Bytes`, `Text`, `Words` | byte strings and searches, trimming and splitting, 32-bit words |
| `Query`, `Params`, `Base64`, `PathParams` | the small codecs: percent coding, query strings, base64, route patterns |
| `MultipartSpec`, `MultipartNames`, `MultipartParser` | the form-data parser as a step function, what its header lines say, and the class over a compacting array |
| `MultipartCuts`, `MultipartRoundTrip`, `MultipartContents`, `MultipartForms`, `MultipartReceiver` | cuts of the stream, the serializer, the round trip, what acceptance means |
| `Chunked`, `ChunkedLaws`, `ChunkedWriter`, `Streams` | chunked coding: its meaning, the writer, and the reader over a buffered socket |
| `MultipartUpload` | the resumable form provider, and the whole way from sender to receiver |
| `ThreadPool`, `ClientSocket` | step relations over all interleavings |
| `GetoptSpec`, `GetoptLaws`, `Getopt` | a one-pass reference scanner, what each of its calls delivers, and the permuting scanner in place |
| `ProfilerLog`, `ProfilerTime`, `ProfilerReplay`, `ProfilerThreads` | log ring and frames, accounting, its loops on arrays, the log pool |
| `Adpcm` | the decoder's loops, its filter, and its 32-bit sum |

Where the source changes things step by step, a class or a method with loops does the same and is proved against a function;
the laws are lemmas about these functions.

## What the proofs say that the code does not promise

Several laws are false of the code on some inputs. The code is modelled as it is, and each law is given with the condition
under which it holds, in both directions:

- Cuts of a form body matter when a header line is longer than 8191 bytes, because the length check at line 4310 also fires on
  a line that has not ended, or when what follows the closing delimiter looks like header lines, because the state stays 4 at
  lines 4402-4406. A cut inside the first delimiter line loses it (lines 4295-4297).
- A name or file name with `;` or `=` does not survive the header parser although it is printed in quotes; one with a quote
  does.
- A provider whose write is empty before it is done ends a chunked upload without its end marker (line 4037), and the writer
  reports success.
- A `stop` is forgotten when the request it interrupts follows a redirect (line 6788).
- A thread that calls `MicroProfileOnThreadExit` twice makes the free list circular, and two later threads share a log.
- The child-tick stack needs one slot more than it has at nesting depth 32: the assertion at line 1700 of microprofile.h lets
  the entry through and line 1704 writes past the array.
- `-W` with text attached, in a client without long options, is returned for ever, because the text is dropped but `optind`
  stays (line 435 of getopt.c). An ambiguous name after `-W` moves `optind` one element too far (line 388), at the end of the
  arguments past it.
- The ADPCM filter sum leaves 32 bits for large coefficients, and then every affected sample is clamped to the wrong end.

## Model

| member | source | states |
|---|---|---|
| `MultipartParser.MultipartFormDataParser.StartWith` | externals/httplib/httplib.h:4446-4453 | true exactly when the text occurs in the unread window at that position |
| `MultipartParser.MultipartFormDataParser.BufFind` | externals/httplib/httplib.h:4465-4486 | the nested search loops return the first occurrence in the unread window, or its length when there is none |
| `MultipartParser.MultipartFormDataParser.BufAppend` | externals/httplib/httplib.h:4488-4504 | compaction, growth and copying in place leave the unread window followed by exactly the new bytes |
| `MultipartParser.MultipartFormDataParser.BufErase` | externals/httplib/httplib.h:4506 | drops exactly that many bytes from the front of the window |
| `MultipartParser.ParseDispositionParams` | externals/httplib/httplib.h:4210-4232 | the cache and the two nested splits give the unquoted pairs of the non-empty trimmed pieces, each distinct piece once |
| `MultipartParser.MultipartFormDataParser.ReadHeaderLine` | externals/httplib/httplib.h:4323-4366 | one header line, also said of its text: a disposition with any parameters in any order names its part and file as written, a `filename*` with the percent-encoded name overriding a `filename`; a missing name, an unmarked `filename*` and any other kind of line are refused; a content type is trimmed |
| `MultipartParser.MultipartFormDataParser.ParseHeaders` | externals/httplib/httplib.h:4308-4372 | the inner loop over header lines, with the length check on the first line only, is one `Headers` turn of the specification |
| `MultipartParser.MultipartFormDataParser.ParseContent` | externals/httplib/httplib.h:4373-4395 | content up to the delimiter, or all but the last delimiter-length bytes, is handed over and erased; a refusal leaves the window as it was |
| `MultipartParser.MultipartFormDataParser.ParseBoundary` | externals/httplib/httplib.h:4396-4411 | after a delimiter: a new entry, the end with the epilogue dropped and the state kept, or a wait for more bytes |
| `MultipartParser.MultipartFormDataParser.Parse` | externals/httplib/httplib.h:4288-4417 | a whole call on the compacting array buffer refines the step function `MultipartSpec.Parse`, in result, validity, file fields, unread bytes and everything the callbacks were given |
| `MultipartParser.ParsePieces` | externals/httplib/httplib.h:4288-4417 | one call per piece, up to the first that fails, is `MultipartSpec.Feed` |
| `MultipartNames.NamesRead` | externals/httplib/httplib.h:4326-4361 | for every list of well-formed parameters, quoted or not, in a line of any letter case: the first name, and the first `filename*` decoded, or else the first `filename`, or else the file name from before |
| `MultipartNames.UnacceptableRead` | externals/httplib/httplib.h:4336-4358 | without a name, or with a `filename*` that lacks the mark `UTF-8''` or anything behind it, the line is refused |
| `MultipartNames.UnknownRead` | externals/httplib/httplib.h:4323-4366 | a line that begins with neither of the two names, in any letter case, is refused and changes nothing |
| `MultipartNames.TypeRead` | externals/httplib/httplib.h:4320-4323 | a content type is what lies between the blanks |
| `MultipartNames.ExtendedName` | externals/httplib/httplib.h:4348-4357 | every non-empty byte string, percent-encoded behind the mark, is read back as the file name, with or without a plain file name before it |
| `MultipartReceiver.AcceptedAgreed` | externals/httplib/httplib.h:4308-4395 | in an accepted body, however cut, the header callback agreed to every part and the content callback to the content of every part that has some or is finished |
| `MultipartReceiver.ValidIsClosed` | externals/httplib/httplib.h:4396-4411 | a body that counts as complete holds a delimiter with the two closing dashes, however it is cut |
| `MultipartCuts.EntryPlace` | externals/httplib/httplib.h:4294-4302 | the parser finds the first delimiter line of a stream exactly when no piece ends inside it, and then goes on with what follows it |
| `MultipartCuts.FreeCut` | externals/httplib/httplib.h:4293-4414 | a cut at any byte of a robust body: the second piece takes over where the first ended, and both halves stay robust |
| `MultipartCuts.CutIndependence` | externals/httplib/httplib.h:4288-4417 | every cut that keeps the first delimiter line whole shows the receiver the same headers, the same content per part, the same result and the same validity as a single call |
| `MultipartCuts.CutIndependenceExactly` | externals/httplib/httplib.h:4288-4417 | any body, taken or refused by one call, shows the same under all such cuts if and only if its header lines fit the limit (at most 8191 bytes), except in a block in which the single call fails, and its epilogue shows nothing when read as header lines after a line break; all of it can be read off the body |
| `MultipartCuts.BreakingBody` | externals/httplib/httplib.h:4309-4311 | constructs, for every body outside that condition, accepted or not, a cut whose outcome differs |
| `MultipartRoundTrip.SerializeFormData` | externals/httplib/httplib.h:4583-4600 | the printing loop gives the items one after the other and, when asked, the closing delimiter |
| `MultipartRoundTrip.FirstAfter` | externals/httplib/httplib.h:4375-4382 | a delimiter whose first byte does not recur in it cannot overlap itself: printed after a text free of it, it is found right there |
| `MultipartRoundTrip.DispositionExactly` | externals/httplib/httplib.h:4326-4361 | a printed name and file name are read back if and only if they hold no `;`, no `=` and no line break; a double quote does no harm |
| `MultipartRoundTrip.ItemOff` | externals/httplib/httplib.h:4308-4382 | an item at the front of any text is read off it with its header fields and content, whatever follows |
| `MultipartRoundTrip.RoundTrip` | externals/httplib/httplib.h:4583-4600 | a serialized form fed to the parser under any cut that keeps its first delimiter line whole gives back exactly its items in order and ends valid |
| `MultipartContents.ContentsExactly` | externals/httplib/httplib.h:4545-4600 | with headers that survive, a form comes back from one call if and only if no content contains CR LF, two dashes and the boundary |
| `MultipartContents.ItemCutShort` | externals/httplib/httplib.h:4373-4382 | an item whose content contains the delimiter is delivered shorter than it was, and nothing later in the stream can complete it |
| `MultipartForms.FilePlain` | externals/httplib/httplib.h:4323-4366 | whatever header block gives a file back, its name and file name hold no `;`, no `=` and no line break, and its content type is one trimmed line |
| `MultipartForms.ItemForced` | externals/httplib/httplib.h:4308-4382 | an item that came back from a robust body is one the parser can read back: its fields are plain, its lines short and its content free of the delimiter |
| `MultipartForms.RoundTripExactly` | externals/httplib/httplib.h:4545-4600 | the law of the form codec for every list of items: the form comes back, whole and valid, under every cut that keeps its first delimiter line whole, if and only if each item can be read back, given a receiver that refuses nothing; nothing is assumed of names, types, line lengths or contents |
| `MultipartForms.LosingCut` | externals/httplib/httplib.h:4308-4382 | constructs, for every other form, a cut under which it does not come back |
| `MultipartForms.LoudEpilogue` | externals/httplib/httplib.h:4402-4406 | a body that one call takes and that is refused when cut after the closing dashes |
| `MultipartUpload.MultipartProvider.Call` | externals/httplib/httplib.h:7348-7381 | one call of the resumable provider, with its item index and item start kept between calls |
| `MultipartUpload.ItemRest` | externals/httplib/httplib.h:7367-7375 | an item provider that is called again and again sees the offsets its own writes have reached, from 0 on, until it is done |
| `MultipartUpload.WholeItem` | externals/httplib/httplib.h:7353-7375 | an item from its first call puts out its header block, all it reads, and the line break after it |
| `MultipartUpload.ProvidersRun` | externals/httplib/httplib.h:7353-7380 | all provider items in order, then the closing delimiter and the end of data |
| `MultipartUpload.UploadExactly` | externals/httplib/httplib.h:7342-7382 | driven by the chunked writer to completion, the stream decodes to exactly the serialized form of all items if and only if no call of an item provider but its last ends with an empty write; otherwise the writer still reports success but no chunked reader accepts the stream |
| `MultipartUpload.HesitantUpload` | externals/httplib/httplib.h:4035-4060 | a provider that once writes nothing before it is done: its upload is reported a success and no chunked reader accepts it |
| `MultipartUpload.EndToEnd` | externals/httplib/httplib.h:7342-7382 | provider, chunked writer, chunked reader and form parser together are the identity on item lists, for every way the reader may cut the payload outside the first delimiter line |
| `MultipartUpload.ReceiveForm` | externals/httplib/httplib.h:3788-3840 | on a sound connection, for all sizes of the socket's reads, the parser object and its receiver end as feeding them the decoded payload makes them |
| `Chunked.FromIToHex` | externals/httplib/httplib.h:2225-2233 | the digit loop gives the lower-case hexadecimal form, for numbers of any size |
| `Chunked.SizeLine` | externals/httplib/httplib.h:3801-3804 | a printed size line is read back by `strtoul` as the size, and sizes past the integer as its maximum |
| `Chunked.DecodeChunk` | externals/httplib/httplib.h:4048-4049 | a printed chunk in front of any stream decodes to its data in front of what the rest decodes to |
| `Chunked.DecodeHugeChunk` | externals/httplib/httplib.h:3804 | a chunk whose size cannot be told from an overflow is refused |
| `Chunked.TrailerBack` | externals/httplib/httplib.h:3822-3837 | trailer fields of the kind `parse_header` leaves alone come back in order |
| `Chunked.RoundTripExactly` | externals/httplib/httplib.h:4026-4127 | the reader gives back exactly what was written, with its trailer and nothing left over, if and only if the data were ended once and nothing was written afterwards |
| `ChunkedLaws.SizeText` | externals/httplib/httplib.h:3801 | the size of any size line: leading spaces, a sign and `0x` are passed over, digits of either case count, and what follows them, such as an extension, does not |
| `ChunkedLaws.NoSize` | externals/httplib/httplib.h:3803 | a line without a digit has no size |
| `ChunkedLaws.ChunkReads` | externals/httplib/httplib.h:3808-3816 | a chunk with any such size line, in front of any stream |
| `ChunkedLaws.ChunkRefused` | externals/httplib/httplib.h:3801-3814 | no size, a size too large, data cut short and data not followed by a line break are refused, with what has been handed over by then |
| `ChunkedLaws.LastChunkReads` | externals/httplib/httplib.h:3806 | a size of zero ends the chunks |
| `ChunkedLaws.TrailerLine` | externals/httplib/httplib.h:3824-3838 | one line of the trailer, or its refusal when it is too long |
| `ChunkedLaws.TrailerEnds` | externals/httplib/httplib.h:3822-3824 | the empty line ends it, and a stream that ends before that is refused |
| `ChunkedLaws.HeaderReads` | externals/httplib/httplib.h:3663-3694 | a field with blanks around its value, percent-decoded unless it is `Location` in any letter case |
| `ChunkedLaws.NoHeader` | externals/httplib/httplib.h:3674-3693 | a line without a colon, or with only blanks behind it, adds no field |
| `ChunkedWriter.WriteData` | externals/httplib/httplib.h:3939-3947 | writes all bytes in order however little the stream takes at a time, or fails on a faulty stream |
| `ChunkedWriter.ChunkSink.Write` | externals/httplib/httplib.h:4035-4060 | a non-empty write becomes one chunk and an empty one nothing; the offset grows by its length, and an empty write ends the loop |
| `ChunkedWriter.ChunkSink.End` | externals/httplib/httplib.h:4062-4104 | the end marker, the trailer lines and the empty line, and no more data |
| `ChunkedWriter.WriteContentChunked` | externals/httplib/httplib.h:4026-4127 | a successful run has put the coding of all the provider's operations on the stream; on a sound stream it fails exactly when the provider cancels |
| `Streams.SocketStream.Read` | externals/httplib/httplib.h:5316-5360 | the buffered read delivers the next bytes of the stream in order: nothing lost, repeated or reordered, at most the size asked for, and zero only at the end |
| `Streams.SocketStream.ReadThrough` | externals/httplib/httplib.h:5343-5356 | filling the buffer by one arbitrary short read and taking from it |
| `Streams.LineReader.Append` | externals/httplib/httplib.h:2551-2562 | a byte is added after the line so far, in the fixed buffer and then in the one that grows |
| `Streams.LineReader.GetLine` | externals/httplib/httplib.h:2525-2549 | a line is exactly the bytes up to and with its line feed, or up to the end of the stream |
| `Streams.ReadContentWithLength` | externals/httplib/httplib.h:3735-3755 | hands over exactly that many bytes in order, in non-empty pieces, or stops early only at the end of the stream, on a fault or when the receiver refuses |
| `Streams.ReadTrailer` | externals/httplib/httplib.h:3821-3839 | the trailer loop, with its length limit, against the specification of the trailer |
| `Streams.ReadChunk` | externals/httplib/httplib.h:3808-3816 | one chunk: its data, the line break after it and the next size line |
| `Streams.ReadContentChunked` | externals/httplib/httplib.h:3787-3840 | for all sizes of the socket's reads: success exactly when the stream decodes, what is handed over is the decoded payload, and on a fault or refusal a prefix of it |
| `Text.TrimRange` | externals/httplib/httplib.h:2456-2465 | the two scans find the part without outer spaces and tabs, although the left one may run past the given end |
| `Text.Split` | externals/httplib/httplib.h:2479-2497 | the pieces handed over are exactly the non-empty trimmed pieces between separators, in order |
| `Text.SplitKeyValue` | externals/httplib/httplib.h:4183-4191 | the first piece is the key and the last other piece the value |
| `Text.PiecesJoined` | externals/httplib/httplib.h:2479-2497 | splitting any parts joined by the separator gives their trims without the empty ones |
| `Text.KeyValueJoined` | externals/httplib/httplib.h:4183-4191 | of any number of parts the first is the key and the last other one the value |
| `Query.DecodeUrlLoop` | externals/httplib/httplib.h:2401-2436 | the decoding loop computes the function whose meaning the next rows state |
| `Query.DecodePlain` | externals/httplib/httplib.h:2428-2432 | a byte that is neither a percent sign nor, where it counts, a plus sign stays; a plus sign there is a space |
| `Query.DecodeEscape` | externals/httplib/httplib.h:2418-2427 | a percent sign with two hexadecimal digits of either case is the byte they write |
| `Query.DecodeUnicode` | externals/httplib/httplib.h:2406-2417 | `%u` with four digits is the UTF-8 form of the code point they write, as an independent reader of UTF-8 sees it, or nothing for a surrogate |
| `Query.DecodeStray` | externals/httplib/httplib.h:2415-2427 | a percent sign that begins no escape stays |
| `Query.Utf8Exactly` | externals/httplib/httplib.h:2235-2265 | what is written for a code point is its UTF-8 form and nothing else is; surrogates have none |
| `Query.RenderedDecodes` | externals/httplib/httplib.h:2401-2436 | for every way of writing bytes, plain where that is allowed, escaped in either case, spaces as `+` or `%20`: decoding gives the bytes back |
| `Query.DecodeShortens` | externals/httplib/httplib.h:2401-2436 | decoding never makes a text longer |
| `Query.EncodeParamLoop` | externals/httplib/httplib.h:2348-2367 | the encoding loop: unreserved bytes as they are, others as `%` and two capital hexadecimal digits |
| `Query.EncodeExactly` | externals/httplib/httplib.h:2348-2367 | letters, digits and nine marks stay, any other byte is a percent sign and two capital digits, byte by byte |
| `Query.DecodeEncode` | externals/httplib/httplib.h:2401-2436 | decoding undoes encoding for all byte strings, whether or not `+` means a space |
| `Params.ParamsToQueryStr` | externals/httplib/httplib.h:4164-4174 | the printing loop: items in the multimap's order, joined by `&` |
| `Params.ParseQueryText` | externals/httplib/httplib.h:4176-4197 | the reading loop with its cache adds the decoded pairs of the distinct pieces, in order, to the multimap it is given; for keys and values written in any of the ways a form writes bytes these are exactly the pairs meant |
| `Params.SaysParsed` | externals/httplib/httplib.h:4176-4197 | a text that says some pairs, each key and value written in any way, adds exactly these pairs in order |
| `Params.EmplaceAdds` | externals/httplib/httplib.h:4192-4196 | putting in a pair keeps the keys in order and adds its value behind those the key has already |
| `Params.RoundTrip` | externals/httplib/httplib.h:4164-4197 | reading a printed multimap gives it back with identical pairs collapsed, when its keys survive; the values are arbitrary bytes |
| `Params.KeyExactly` | externals/httplib/httplib.h:4164-4197 | one parameter is read back if and only if its key is non-empty, has no outer blank, no `&`, no `=`, and percent decoding leaves it alone; the value never matters |
| `Params.PlainKey` | externals/httplib/httplib.h:2401-2436 | a key without `%` and `+` is left alone by percent decoding |
| `PathParams.Compile` | externals/httplib/httplib.h:5415-5458 | the constructor's loop gives the fragments and names of the pattern, and refuses exactly the patterns that repeat a name |
| `PathParams.Match` | externals/httplib/httplib.h:5460-5501 | the matching loop, with its positions past the end of the path, gives the captures by name; a repeated name keeps its first value, and without repeats each name has its capture |
| `PathParams.ZipHolds` | externals/httplib/httplib.h:5493-5496 | exactly the names are held, each with the value of its first parameter, so with every value when no name repeats |
| `PathParams.Strncmp` | externals/httplib/httplib.h:5475-5479 | the bytewise comparison, which stops at a NUL |
| `PathParams.MatchExactly` | externals/httplib/httplib.h:5460-5501 | from any position: the values are captured if and only if they hold no `/` and the rest of the path is their rendering, up to one `/` after a last parameter |
| `PathParams.SubstitutedMatches` | externals/httplib/httplib.h:5460-5501 | substituting values without `/` in a pattern gives a path that is matched with exactly those values |
| `PathParams.MatchedSubstitutes` | externals/httplib/httplib.h:5460-5501 | every path that is matched is such a substitution, up to one `/` at the end of a pattern that ends in a parameter |
| `PathParams.SubstituteIs` | externals/httplib/httplib.h:5432-5457 | substituting in the pattern and rendering its fragments differ by at most the separator after a last parameter, which the fragments do not keep |
| `Base64.OnlyLowBitsMatter` | externals/httplib/httplib.h:2279-2286 | only the low `valb + 6` bits of the accumulator matter: the next digits are right however the 32-bit shifts have wrapped |
| `Base64.PutDigits` | externals/httplib/httplib.h:2282-2285 | the inner loop puts out every six bits there are |
| `Base64.EncodeLoop` | externals/httplib/httplib.h:2269-2295 | for inputs of any length the result is the encoding of section 4 of RFC 4648 |
| `Base64.RoundTrip` | externals/httplib/httplib.h:2269-2295 | a strict decoder recovers every byte string from its encoding |
| `Base64.DecodeExactly` | externals/httplib/httplib.h:2269-2295 | that decoder accepts a text as the code of a byte string if and only if it is what the encoder prints for it |
| `Base64.Alphabet` | externals/httplib/httplib.h:2271-2272 | the alphabet as section 4 of RFC 4648 prints it |
| `Base64.GroupMeans` | externals/httplib/httplib.h:2277-2286 | four digits write the same number as the three octets |
| `ThreadPool.StepWake` | externals/httplib/httplib.h:603-609 | no step of any thread loses a wake-up, although `notify_one` comes after the mutex is released |
| `ThreadPool.StepQueue` | externals/httplib/httplib.h:603-609 | every step keeps the queue in order and every job in exactly one place |
| `ThreadPool.Reachable` | externals/httplib/httplib.h:597-668 | mutex, queue, wake-up and shutdown invariants hold in every state that any interleaving reaches |
| `ThreadPool.NoLostWakeUp` | externals/httplib/httplib.h:630-655 | while a worker sleeps, the queue is no longer than the workers on their way and the notifications to come; with none of either it is empty |
| `ThreadPool.FirstInFirstOut` | externals/httplib/httplib.h:603-646 | jobs are taken in the order they were queued, each once, and what was taken is finished or in a worker's hand |
| `ThreadPool.Drains` | externals/httplib/httplib.h:611-626 | once every worker has exited, every job queued before the shutdown has been run exactly once |
| `ThreadPool.StepRank` | externals/httplib/httplib.h:597-668 | every step of the pool's own threads lowers a bound |
| `ThreadPool.Bounded` | externals/httplib/httplib.h:597-668 | without new calls and spurious wake-ups the pool stops after that many steps |
| `ThreadPool.NoDeadlock` | externals/httplib/httplib.h:611-655 | when no thread can move, either nothing is queued and no shutdown was asked for, or the shutdown has joined all workers and the jobs before it have been run |
| `ThreadPool.EachJobOnce` | externals/httplib/httplib.h:608-646 | in a pool at rest that was not shut down, exactly the jobs that were asked for have been run, each once |
| `ThreadPool.ShutdownDrains` | externals/httplib/httplib.h:618-640 | however the run goes on after the shutdown flag is set: once all workers have exited, every job queued by then has been run exactly once |
| `ClientSocket.StepInv` | externals/httplib/httplib.h:6782-6869 | every critical section keeps the ownership invariant |
| `ClientSocket.OwnershipHolds` | externals/httplib/httplib.h:6704-6734 | in every interleaving of sends, nested sends and stops the assertions hold, a count above zero means the recorded thread holds the request mutex with that many requests, and the count returns to zero |
| `ClientSocket.FlagLasts` | externals/httplib/httplib.h:6784-6788 | the flag a stop sets stays until the next `send_` begins, and only that opens a socket |
| `ClientSocket.StopExactly` | externals/httplib/httplib.h:6843-6858 | after a stop that saw a request in flight, however the innermost request ends: the socket is open if and only if it was open, a `send_` has begun since, the request succeeded and its connection is to be kept |
| `ClientSocket.EndExactly` | externals/httplib/httplib.h:6833-6853 | in every run, for all arguments: after the end of a request the socket is open if and only if it was open, no stop is pending, the request succeeded and its connection is to be kept |
| `ClientSocket.BeginExactly` | externals/httplib/httplib.h:6782-6828 | a live socket is used again, any other is given up for a new one, and the request is under way exactly if there is an open socket |
| `ClientSocket.ClosesAtOnce` | externals/httplib/httplib.h:7865-7886 | a stop without a request in flight, and a response that says so, close the socket at once |
| `ClientSocket.ClosedWhenIdle` | externals/httplib/httplib.h:6850-6857 | in every run in which no connection is kept, the socket is closed whenever no request is under way |
| `ClientSocket.TriedTwice` | externals/httplib/httplib.h:6770-6780 | in every run `send_` is called at most twice for each call of `send` |
| `ClientSocket.StopLost` | externals/httplib/httplib.h:7865-7886 | a run in which the redirect of a request clears the flag: the stop is lost and the idle client keeps its open socket |
| `Getopt.SwapBlocks` | externals/getopt/getopt.c:84-89 | the inner loop exchanges two equal blocks in place |
| `Getopt.SwapThenRotateTop` | externals/getopt/getopt.c:80-91 | after the shorter first block has gone to the far end, a smaller rotation is left |
| `Getopt.SwapThenRotateBottom` | externals/getopt/getopt.c:92-103 | the same when the second block is the shorter |
| `Getopt.Data.Exchange` | externals/getopt/getopt.c:72-107 | the block-swapping loop rotates the operands behind the options in place, and moves the borders |
| `Getopt.Data.SkipPhase` | externals/getopt/getopt.c:148-161 | collecting earlier operands and skipping the next ones keeps the array laid out as options, operands, the rest |
| `Getopt.Data.EndPhase` | externals/getopt/getopt.c:162-171 | `--` is taken and everything after it is an operand |
| `Getopt.Data.Finish` | externals/getopt/getopt.c:172-177 | at the end `optind` goes back to the first operand, with the whole array laid out |
| `Getopt.Data.FindLong` | externals/getopt/getopt.c:201-246 | the loop over the long options finds what the name stands for |
| `Getopt.Data.ScanLong` | externals/getopt/getopt.c:187-316 | the long option part, with its five ways to fail and its fall-through to short options; what it hands over is stated by `GetoptLaws.LongStep` and `LongFails` |
| `Getopt.Data.ScanShort` | externals/getopt/getopt.c:317-476 | the short option part: unknown letters, attached, separate, optional and missing arguments, and `-W` |
| `Getopt.Data.ScanNamed` | externals/getopt/getopt.c:362-436 | the text after a `-W` as a long option, with the slips of that copy of the code: an ambiguous name uses up an element more, and errors leave `optarg` set |
| `Getopt.Data.Call` | externals/getopt/getopt.c:129-477 | one call on the permuted array returns what one call of the one-pass scanner returns on the original arguments, which the laws of `GetoptLaws` state; the borders stay ordered; without permutation the array is not changed; it leaves the array exactly when the scanner oversteps the arguments |
| `Getopt.RunAll` | externals/getopt/getopt.c:129-477 | any number of calls has the outcomes of the one-pass scanner, and when the options run out the array holds what was taken and then the operands |
| `GetoptSpec.CallProgress` | externals/getopt/getopt.c:146-186 | every call that does not end the scan leaves strictly fewer characters to read, except for a `-W` with attached text and no long options, and stays inside the arguments except for an ambiguous name after a last `-W` |
| `GetoptSpec.MatchLongExactly` | externals/getopt/getopt.c:206-235 | what a name stands for: the first option of exactly that name; otherwise the first it abbreviates, unless a later one that it abbreviates differs in effect (or only long options are in use); otherwise none |
| `GetoptSpec.EndsExactly` | externals/getopt/getopt.c:340-341 | every scan comes to its end if and only if there are long options or `W;` is not declared |
| `GetoptSpec.ReturnsForEver` | externals/getopt/getopt.c:434-436 | without long options the element `-Wx` is returned for ever |
| `GetoptSpec.InsideExactly` | externals/getopt/getopt.c:380-390 | no scan leaves the arguments if and only if no name that can be given to `-W` is ambiguous |
| `GetoptSpec.LeavesArguments` | externals/getopt/getopt.c:380-390 | an ambiguous name after a last `-W` takes `optind` past the end of the array |
| `GetoptSpec.RunPartitions` | externals/getopt/getopt.c:146-186 | when the options run out, the elements taken and the operands are the arguments, each list in its original order |
| `GetoptLaws.LongStep` | externals/getopt/getopt.c:247-306 | `--name=text`, `--name` and the next element, `--name` alone, and one dash where that is enough: the argument, the value or the flag with its value, the long index, `optopt`, and how many elements are taken; or the argument that is missing or not allowed |
| `GetoptLaws.LongFails` | externals/getopt/getopt.c:222-316 | an ambiguous name, and one that stands for nothing |
| `GetoptLaws.ShortStep` | externals/getopt/getopt.c:317-475 | a declared letter in a cluster: without argument the rest of the element stays for the next call; required and optional arguments from the rest of the element or the next one; a missing one |
| `GetoptLaws.ShortUnknown` | externals/getopt/getopt.c:322-330 | a letter that is not declared gives `?` with the letter in `optopt`, and the rest of the element stays |
| `GetoptLaws.WStep` | externals/getopt/getopt.c:342-433 | `-W name` and `-Wname`, with or without a text behind an equals sign, as the long option |
| `GetoptLaws.WFails` | externals/getopt/getopt.c:380-390 | a name that stands for nothing is handed over as the argument of `W`; an ambiguous one takes an element more |
| `GetoptLaws.WAlone` | externals/getopt/getopt.c:340-358 | without long options, and without any text |
| `GetoptLaws.EndStep` | externals/getopt/getopt.c:162-177 | the options end with the arguments or at `--`; what was skipped and what follows are the operands |
| `GetoptLaws.OperandStep` | externals/getopt/getopt.c:178-184 | an operand that may not be moved: handed over as the argument of option 1, or the end |
| `Getopt.RotateLayout` | externals/getopt/getopt.c:105-106 | the rotation turns one layout into the next, with the taken elements and the operands each in order |
| `ProfilerLog.EntryFields` | externals/microprofile/microprofile.h:845-854 | type, timer index and tick of an entry do not disturb each other |
| `ProfilerLog.DifferenceIs` | externals/microprofile/microprofile.h:856-862 | the difference of two entries is that of their ticks, nearest to zero modulo 2^48, whatever their other fields are |
| `ProfilerLog.DifferenceExactly` | externals/microprofile/microprofile.h:856-862 | two entries give back the time between them if and only if it is a signed 48-bit number |
| `ProfilerLog.RangeSlots` | externals/microprofile/microprofile.h:1481-1498 | the two ranges list the slots between two marks, one after the other |
| `ProfilerLog.ThreadLog.Put` | externals/microprofile/microprofile.h:1387-1402 | an entry is stored after the earlier ones, or dropped when the ring is full since the last flip |
| `ProfilerLog.ThreadLog.Replay` | externals/microprofile/microprofile.h:1658-1693 | between two marks exactly the entries stored between them are read, if and only if the ring has not come round onto them |
| `ProfilerLog.FrameClock.Flip` | externals/microprofile/microprofile.h:1561-1616 | a flip starts a frame, frees the ring and chooses the frame to replay |
| `ProfilerLog.FrameClock.ReplayFrame` | externals/microprofile/microprofile.h:1658-1693 | the replayed frame, which began four flips ago, is read entry by entry in order, across any number of wraps, drops and reuses of the history, if and only if at most a ring of entries was stored since it began or it is empty |
| `ProfilerLog.NumbersExactly` | externals/microprofile/microprofile.h:1481-1498 | exactly when every slot still holds the entry it is read for |
| `ProfilerTime.StepConserves` | externals/microprofile/microprofile.h:1696-1748 | each entry credits to the timers exactly what it adds to the stack of children's ticks |
| `ProfilerTime.EntersAny` | externals/microprofile/microprofile.h:1696-1706 | entering opens a level for its group, whose count is a byte, and touches no counter |
| `ProfilerTime.LeavesAny` | externals/microprofile/microprofile.h:1718-1748 | leaving charges the timer and group of the entry that leaves, whichever timer entered the scope, and nothing else |
| `ProfilerTime.Ignored` | externals/microprofile/microprofile.h:1723 | a scope that ends although none is open changes nothing |
| `ProfilerTime.FoldConserves` | externals/microprofile/microprofile.h:1687-1750 | over any entries, well nested or not, with any scopes open before, the exclusive ticks credited are the growth of that stack |
| `ProfilerTime.FramesConserve` | externals/microprofile/microprofile.h:1623-1768 | over any number of frames, with scopes that span them and slots overwritten between them, the accumulated exclusive ticks are the growth of that stack |
| `ProfilerTime.ExclusiveIsOutermost` | externals/microprofile/microprofile.h:1723-1734 | from no open scope to none, all exclusive time together is the time of the outermost scopes |
| `ProfilerTime.ReplayAccounts` | externals/microprofile/microprofile.h:1687-1756 | the trace of well-nested scopes gives every timer its inclusive time, exclusive time and count, and every group its time, as defined on the scopes |
| `ProfilerTime.DepthExactly` | externals/microprofile/microprofile.h:1700-1704 | replaying well-nested scopes stays inside the arrays if and only if the open scopes and the height of the new ones together are below 32; the stack ends as it began |
| `ProfilerTime.FirstMisfit` | externals/microprofile/microprofile.h:1700-1704 | whatever the entries are, the first that does not fit enters a scope at level 32: the assertion on the stack position holds, and the child ticks have no such level |
| `ProfilerTime.TowerOverruns` | externals/microprofile/microprofile.h:1700-1704 | thirty-one nested scopes are replayed and thirty-two overrun |
| `ProfilerTime.CutsAccumulate` | externals/microprofile/microprofile.h:1623-1768 | counting frame by frame and adding up is counting in one go, wherever the trace is cut |
| `ProfilerTime.FramesAccount` | externals/microprofile/microprofile.h:1623-1768 | well-nested scopes cut into frames anywhere accumulate the inclusive time, exclusive time and count of every timer and the time of every group of the whole |
| `ProfilerTime.CoveredSize` | externals/microprofile/microprofile.h:1736-1746 | the time of a group's outermost scopes is the number of moments at which one of its scopes is open |
| `ProfilerTime.GroupCountedOnce` | externals/microprofile/microprofile.h:1696-1755 | group time is counted once: a replay adds to a group the length of the union of its scopes, however they recurse or interleave |
| `ProfilerReplay.Replayer.Enter` | externals/microprofile/microprofile.h:1696-1706 | entering a scope on the arrays; at level 32 the write to the child ticks would be out of bounds, after the other writes are done |
| `ProfilerReplay.Replayer.Leave` | externals/microprofile/microprofile.h:1718-1748 | leaving a scope on the arrays: child ticks, timers and groups |
| `ProfilerReplay.Replayer.ReplayRange` | externals/microprofile/microprofile.h:1687-1750 | the loop over a range of slots is the fold of the account over its entries, and overruns exactly when they do not all fit |
| `ProfilerReplay.Replayer.ReplayFrame` | externals/microprofile/microprofile.h:1648-1756 | both ranges of a frame and the group totals added to the frame and the log, or the overrun, exactly when the entries do not all fit |
| `ProfilerReplay.RangesHoldFrame` | externals/microprofile/microprofile.h:1481-1498 | the entries that replay reads are those stored between the two marks |
| `ProfilerThreads.LogPool.OnThreadCreate` | externals/microprofile/microprofile.h:1170-1207 | a new thread gets the head of the free list, reset, or a new log |
| `ProfilerThreads.LogPool.OnThreadExit` | externals/microprofile/microprofile.h:1209-1237 | the search loop and the links: the log is emptied, put at the head of the free list, and its marks are cleared in all frames |
| `ProfilerThreads.LiveLogsApart` | externals/microprofile/microprofile.h:1170-1196 | no two live threads have the same log, and none has the GPU's or one on the free list |
| `ProfilerThreads.CreateKeeps` | externals/microprofile/microprofile.h:1170-1196 | creation takes exactly the head off the free list, or makes a new log; that log holds nothing and has no open scope, every other log and thread is as it was, and every invariant holds |
| `ProfilerThreads.ExitKeeps` | externals/microprofile/microprofile.h:1209-1237 | a first exit empties exactly that log and puts it on the free list, changes no other, and keeps every invariant |
| `ProfilerThreads.ExitExactly` | externals/microprofile/microprofile.h:1209-1237 | an exit keeps the free list finite and the live logs their owners' if and only if the thread has not exited before |
| `ProfilerThreads.RunSafe` | externals/microprofile/microprofile.h:1170-1237 | in every run of creations, exits, stores and flips the free list is acyclic and exactly the inactive logs, all empty, and the GPU's log is never on it |
| `ProfilerThreads.ExitedTwice` | externals/microprofile/microprofile.h:1225-1229 | a run with a second exit after which two live threads write to one log |
| `Adpcm.Streaming` | src/audio_core/codec.cpp:16-80 | decoding whole frames first and the rest from the state they leave is decoding all at once |
| `Adpcm.SampleExactly` | src/audio_core/codec.cpp:46-59 | a sample comes out right if and only if the whole filter sum is a 32-bit number; a sum too large gives -32768 and one too small 32767 |
| `Adpcm.PairExactly` | src/audio_core/codec.cpp:42-59 | a pair of coefficients is right for every nibble, scale and history if and only if two bounds on the pair hold |
| `Adpcm.StreamExactly` | src/audio_core/codec.cpp:16-80 | no stream ever decodes differently from the ideal filter if and only if all eight pairs satisfy these bounds |
| `Adpcm.SmallCoefficients` | src/audio_core/codec.cpp:42-52 | coefficients whose magnitudes add up to at most 49152 satisfy the bounds; 49153 is too much |
| `Adpcm.PutOctets` | src/audio_core/codec.cpp:61-73 | the inner loop over a frame's octets |
| `Adpcm.DecodeADPCM` | src/audio_core/codec.cpp:16-80 | the loops write every slot once and in order, with the extra one of an odd count; every slot holds, in both channels, what the filter equation makes of its nibble, its frame's header and the two samples before it, from the incoming state on; the state left is the last two samples |
| `Adpcm.DecodeSolves` | src/audio_core/codec.cpp:34-59 | the same of the decoding function: the filter equation slot by slot, with the positions of headers and nibbles written out, the 32-bit sum and the clamp |

## Left out

- ChunkedWriter.WriteContentChunked: compressors are not modelled, only the writer without one; whether the server is shutting down is a bound on the number of rounds.
- Streams.SocketStream.Read: the socket is an arbitrary source of non-empty short reads that may fail; `select`, TLS and the limits of `ssize_t` are not modelled.
- Streams.ReadContentChunked: the reader's progress callback is not modelled, and the receiver decides on the pieces it has seen.
- MultipartParser.MultipartFormDataParser.Parse: the callbacks are a receiver that collects parts and accepts or refuses by any function of them; the two fixed regular expressions are matchers written out, with `.` as any character but a line break; `find` in the parameter multimap is taken to give the first pair put in.
- MultipartUpload.UploadExactly: an item's provider is a function of the number of the call and the offset, and finishes after a known number of calls.
- Chunked.TrailerBack: only fields that `parse_header` leaves alone, which percent-decodes values other than that of `Location`.
- Params.RoundTrip: a multimap is the list of its pairs in key order; its order is that of bytes.
- PathParams.MatchExactly: fragments without NUL; the order in which a hash map keeps the captured parameters is not modelled.
- Base64.EncodeLoop: a left shift of a negative `int` is taken to wrap, as it does on the compilers in use.
- Adpcm.SampleExactly: signed overflow is taken to wrap; the standard leaves it undefined.
- Getopt.Data.Call: error messages, the wide-character copies of the functions, and callers that change `optind` in the middle of a run are not modelled.
- ThreadPool.Reachable: one critical section is several steps, but reading and writing one field is atomic; exceptions from jobs are not modelled.
- ClientSocket.OwnershipHolds: a critical section of the socket mutex is one step; what is sent and received is not modelled.
- MultipartUpload.ReceiveForm: the parser object takes the pieces after the read and not inside the reader's callback, in the same order; whether it takes them is decided there by `Feed`.
- ProfilerLog.ThreadLog.Put: one thread at a time; the atomic loads and stores between a writing thread and a flip are not modelled, nor is the GPU's log, whose ticks are rewritten before the replay.
- ProfilerTime.FramesConserve: meta counters, maxima and the wrap-around of 64-bit tick sums are not modelled; the pause toggle, which drops open scopes, is excluded.
- ProfilerReplay.Replayer.ReplayFrame: one thread's log at a time; the clearing of the counters before a frame and their accumulation after it are in `ProfilerTime` only.
- ProfilerThreads.LogPool.OnThreadCreate: thread names and the arrays that a reset clears are not modelled; the pool's mutex makes each call one step.
- The rest of httplib: sockets, TLS, authentication, redirects, range requests and file serving, because they are calls into other libraries.
- The rest of microprofile: its web server, HTML and CSV output, context switches and user interface.
- PCM8 and PCM16 decoding, the audio sinks and the packaging scripts, which would only add easy members.
