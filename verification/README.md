# Verified models of Beyla's stateful code

This project models, in Dafny, the parts of the repository in which state, buffers, byte arithmetic and
concurrency interact, and proves what they are relied on for. It has two halves.

**The HTTP library bundled with the C++ quickstart** (`examples/quickstart/cpp/httplib.h`): the incremental
multipart form parser over its sliding buffer together with the serializer, the chunked transfer coding, percent
coding and query strings, the base64 encoder, the read-ahead socket stream and the line reader, the route matcher,
byte ranges, and two concurrent protocols, the worker pool and the client's socket shared between threads.

**Beyla's own code**: the process collector with its least-recently-used cache and the deltas it reports, and the
webhook, which decides what SDK versions to remove, how pods are rewritten and which deployments are restarted.

Buffers, caches and pods are classes updated in place, and loops of the source are loops here; each is proved equal
to a function of its inputs or its old state, and the results are proved about those functions. The two concurrent
protocols are step relations over any number of threads, where a step is one critical section. A `char` stands for
one byte.

| files | part |
|---|---|
| `Text`, `Segments`, `UrlCoding`, `UrlTokens`, `QueryText`, `QueryLimits`, `Base64` | text, percent coding, query strings, base64 |
| `MultipartSpec`, `MultipartParser`, `MultipartChunks`, `MultipartHeaders`, `MultipartRoundTrip`, `MultipartLimits`, `MultipartNames`, `MultipartOpening`, `MultipartFields`, `MultipartForms`, `MultipartCallbacks` | multipart forms |
| `SocketStream`, `LineReader`, `ChunkedCoding`, `ChunkedRoundTrip`, `ChunkedGrammar` | streams and chunked coding |
| `PathParams`, `PathPatterns`, `Ranges`, `RangeReading` | routes and ranges |
| `ThreadPool`, `ClientSocket` | concurrent protocols |
| `HarvestSpec`, `Collector`, `CollectorRuns` | process collection |
| `SemVer`, `SemVerText`, `SdkCleanup`, `Webhook`, `EnvSpec`, `PodMutation`, `PodAttributes`, `PodMutator`, `PodValues`, `Bouncer`, `BouncerRuns` | the webhook |

`dafny verify dfyconfig.toml` checks everything.

Some promises do not hold of the code as it stands. Each is stated with the exact condition under which it does:

- a multipart form within the header length limit comes back if and only if the first chunk that is not empty holds the
  whole opening line, names and file names are free of `;`, `=`, CR and LF, content types are trimmed and free of CRLF,
  and contents are free of the delimiter;
- a parameter list comes back from its query text if and only if it repeats no pair and every key is non-empty,
  trimmed, free of `&` and `=`, and decodes to itself;
- a chunked body is read back if and only if it was finished, with no trailer line over the length limit up to the first
  blank one, and nothing was written behind that; an empty write ends the loop without a last chunk;
- jobs all run before the pool is gone if and only if none is accepted after the last worker has left; a job enqueued
  behind `shutdown` can always come that late;
- a route pattern accepts nothing but the paths that fit it if and only if no fragment of it has a NUL before its last
  byte;
- a `stop` during a request is forgotten if the request is redirected afterwards;
- memory deltas under a PID add up to the last use of the first process found, and on top of that every use found for
  another process, which is never cached and reports its whole memory each time it is found; so they add up to the use
  found last if and only if no process but the first was found using memory in an earlier round and, where the last
  round finds another one, the first used none when it was found last;
- network bytes of one process, from counters that do not shrink, add up, in either direction, if and only if no round
  moves bytes that way without moving any the other way;
- clean-up spares the versions in use if and only if one of them is below v999.999.999 or none is below the package
  version;
- generated references in a pod are resolved if and only if every variable that gets one, is not overridden by an export
  header, and is in the container already, stands behind the variables the reference names.

The comment on duplicate parameter names in route patterns (`examples/quickstart/cpp/httplib.h:5895-5899`) describes
builds without exceptions; the model follows the build with exceptions. The comment on `setEnvVarEvenIfEmpty`
(`pkg/webhook/mutator.go:440`) repeats that of `setEnvVar`; the model follows the code, which sets empty values too.

## Model

| member | source | states |
|---|---|---|
| `Text.FindAfter` | examples/quickstart/cpp/httplib.h:4887-4907 | a delimiter whose first byte does not recur in it (no proper border), placed behind text that does not contain it, is found exactly there |
| `Text.FindStable` | examples/quickstart/cpp/httplib.h:4887-4907 | input that arrives later never moves a match already inside the buffer |
| `Text.FindLate` | examples/quickstart/cpp/httplib.h:4887-4907 | a match completed by later input starts no earlier than the last delimiter-length-minus-one bytes held back |
| `Text.SplitLoop` | examples/quickstart/cpp/httplib.h:2651-2692 | the splitting loop, which trims by moving two indices over the whole text, yields the trimmed non-empty segments |
| `Text.PieceWithin` | examples/quickstart/cpp/httplib.h:2668-2692 | trimming a segment in place equals trimming a copy of it |
| `Segments.SplitSegments` | examples/quickstart/cpp/httplib.h:2651-2692 | a text told by its segments, each with blanks around a core, splits into the cores that are not empty, in order |
| `UrlCoding.EncodeQueryParamLoop` | examples/quickstart/cpp/httplib.h:2514-2533 | the loop computes the percent encoding of every byte string |
| `UrlCoding.DecodeUrlLoop` | examples/quickstart/cpp/httplib.h:2581-2618 | the loop computes the decoding of every string, malformed escapes and `%u` escapes included |
| `UrlCoding.DecodeEncode` | examples/quickstart/cpp/httplib.h:2514-2618 | decoding inverts encoding for every byte string and both values of the plus flag |
| `UrlCoding.EncodedAlphabet` | examples/quickstart/cpp/httplib.h:2514-2533 | encoded text consists of unescaped bytes and `%` only, so it never holds a separator |
| `UrlTokens.EncodedByte` | examples/quickstart/cpp/httplib.h:2514-2533 | letters, digits and the nine marks stay as they are, every other byte becomes `%` and its two upper-case digits |
| `UrlTokens.EncodedBytes` | examples/quickstart/cpp/httplib.h:2514-2533 | a text is encoded byte by byte |
| `UrlTokens.DecodeSays` | examples/quickstart/cpp/httplib.h:2581-2618 | a text told by its tokens decodes to what they say: escapes of two digits in either case to that byte, `%u` escapes to the UTF-8 bytes of their code point, other bytes to themselves, a plus sign to a space where asked for |
| `UrlTokens.SaysOnce` | examples/quickstart/cpp/httplib.h:2581-2618 | a token says one thing only, so that these statements determine the decoding of every text |
| `UrlTokens.EveryTextReads` | examples/quickstart/cpp/httplib.h:2581-2618 | every text is made of such tokens, malformed escapes standing for themselves |
| `QueryText.ParamsToQueryStr` | examples/quickstart/cpp/httplib.h:4544-4556 | the writer emits keys raw and values encoded, joined by `&` |
| `QueryText.ParseQueryText` | examples/quickstart/cpp/httplib.h:4558-4581 | the parser denotes the decoded pairs of the distinct segments, in order |
| `QueryText.PairSegments` | examples/quickstart/cpp/httplib.h:4567-4579 | of the segments of a pair between equality signs the first that is not empty is the key and the last one, if it is another, the value, both decoded |
| `QueryText.QueryRoundTrip` | examples/quickstart/cpp/httplib.h:4544-4581 | parsing what was written gives the list back with each distinct pair once, for all lists whose keys keep their extent |
| `QueryLimits.QueryExactly` | examples/quickstart/cpp/httplib.h:4544-4581 | over all lists: what is parsed is what was written, in any order, if and only if no pair repeats and every key keeps its extent and decodes to itself |
| `QueryLimits.PairEntries` | examples/quickstart/cpp/httplib.h:4558-4581 | the entries of one written pair take no more room than the pair, and as much only if they are one entry that keeps key and value |
| `QueryText.PlainKeyOk` | examples/quickstart/cpp/httplib.h:4544-4581 | every non-empty key of bytes that are never escaped is such a key |
| `Base64.Encode` | examples/quickstart/cpp/httplib.h:2431-2459 | the loop over a wrapping 32-bit accumulator computes the definition by groups of three bytes, for inputs of any length |
| `Base64.EmittedIsReference` | examples/quickstart/cpp/httplib.h:2435-2456 | whatever the accumulator held before, the symbols emitted from any byte on are those of the definition |
| `Base64.OnlyLowBits` | examples/quickstart/cpp/httplib.h:2440-2447 | all four symbol values depend on the low twelve bits of the accumulator only |
| `Base64.WrapLow` | examples/quickstart/cpp/httplib.h:2440-2447 | wrapping to 32 bits leaves those twelve bits alone |
| `Base64.EncodingExact` | examples/quickstart/cpp/httplib.h:2431-2459 | the output has four symbols for each three bytes begun, is padded exactly by the bytes the last group lacks, and a reference decoder recovers the input (section 4 of RFC 4648) |
| `MultipartParser.Parser.constructor` | examples/quickstart/cpp/httplib.h:4672-4676 | a new parser is in the start state with an empty buffer |
| `MultipartParser.Parser.StartsWith` | examples/quickstart/cpp/httplib.h:4864-4876 | the comparison loop decides occurrence at a position |
| `MultipartParser.Parser.Find` | examples/quickstart/cpp/httplib.h:4887-4916 | the search loop returns the least occurrence in the unread bytes, or their number |
| `MultipartParser.Parser.Append` | examples/quickstart/cpp/httplib.h:4918-4936 | in-place compaction and growth leave the old unread bytes followed by the new ones |
| `MultipartParser.Parser.Erase` | examples/quickstart/cpp/httplib.h:4938 | erasing drops a prefix of the unread bytes and never passes the end |
| `MultipartParser.Parser.ReadInitialBoundary` | examples/quickstart/cpp/httplib.h:4687-4698 | state 0: everything up to the opening line is dropped, the line is consumed |
| `MultipartParser.Parser.ReadHeaderLines` | examples/quickstart/cpp/httplib.h:4704-4780 | state 2: header lines up to the blank line, with refusal of bad lines and by the callback |
| `MultipartParser.Parser.ReadBodyBytes` | examples/quickstart/cpp/httplib.h:4781-4805 | state 3: bytes in front of the delimiter are delivered, at most a delimiter length is withheld |
| `MultipartParser.Parser.ReadBoundaryBytes` | examples/quickstart/cpp/httplib.h:4806-4829 | state 4: next part, end of the form, or wait |
| `MultipartParser.Parser.Parse` | examples/quickstart/cpp/httplib.h:4680-4834 | one call of the parser on any chunk terminates and is the step function of the specification, buffer and callback log included |
| `MultipartChunks.RunPlus` | examples/quickstart/cpp/httplib.h:4685-4831 | for accepting callbacks and input with nothing behind the closing delimiter: running on part of the input and then on the rest agrees with running on all of it; a refusal stays one |
| `MultipartChunks.ChunkIndependence` | examples/quickstart/cpp/httplib.h:4680-4834 | once past the opening line, every way of cutting such input gives the same verdict and, if accepted, the same parts, state and validity |
| `MultipartChunks.BodyHolds` | examples/quickstart/cpp/httplib.h:4781-4805 | while the delimiter is outstanding, one more chunk leaves exactly the last delimiter-length bytes withheld, or all there are, and bytes delivered and withheld make up the input |
| `MultipartChunks.BodyStreams` | examples/quickstart/cpp/httplib.h:4781-4805 | the same over any sequence of chunks: what has been delivered is a prefix of the body, and neither more nor less than the delimiter length is withheld |
| `MultipartChunks.BodyCompletes` | examples/quickstart/cpp/httplib.h:4781-4805 | however the body and the delimiter were cut, the step that consumes the first delimiter has completed the bytes handed out to exactly those in front of it, and leaves what is behind it |
| `MultipartHeaders.DispositionApplies` | examples/quickstart/cpp/httplib.h:4739-4757 | a serialized disposition line is read back as its name and file name, quotes inside them included |
| `MultipartHeaders.TypeApplies` | examples/quickstart/cpp/httplib.h:4730-4735 | a serialized content type line is read back as its content type |
| `MultipartHeaders.DispositionSplit` | examples/quickstart/cpp/httplib.h:4596-4620 | the parameters of a disposition line split at `;` and `=` into exactly what was written |
| `MultipartRoundTrip.BoundaryCharsValid` | examples/quickstart/cpp/httplib.h:4977-4987 | accepts exactly the boundaries of letters, digits, `-` and `_` |
| `MultipartRoundTrip.SerializeItemBegin` | examples/quickstart/cpp/httplib.h:4989-5005 | the head of one item: delimiter line, disposition, type if any, blank line |
| `MultipartRoundTrip.SerializeMultipart` | examples/quickstart/cpp/httplib.h:5018-5034 | the serializer loop |
| `MultipartRoundTrip.DelimiterHasNoBorder` | examples/quickstart/cpp/httplib.h:4977-4987 | for an accepted boundary the delimiter starts with a byte that does not recur in it |
| `MultipartRoundTrip.RoundTrip` | examples/quickstart/cpp/httplib.h:4668-5034 | serializing and parsing in any chunks reports exactly the items in order and leaves the parser valid |
| `MultipartLimits.ReportsSound` | examples/quickstart/cpp/httplib.h:4680-4834 | over every input in every chunking, whatever the callbacks answer: no reported name holds a reserved byte, no reported content type a line end or outer blanks, no reported content the delimiter |
| `MultipartNames.RoundTripExactly` | examples/quickstart/cpp/httplib.h:4668-5034 | with header lines within the limit and the opening line whole, the round trip succeeds if and only if every item has a clean name, a clean file name, a trimmed content type without CRLF and a content without the delimiter |
| `MultipartNames.FeedAllNaming` | examples/quickstart/cpp/httplib.h:4704-4780 | a file name with a reserved byte is never reported: in any chunks, whatever header lines it breaks into, the part gets another one |
| `UrlCoding.DecodeShrinks` | examples/quickstart/cpp/httplib.h:2581-2618 | decoding never makes a text longer, so that `filename*` cannot carry a name as long as the text around it |
| `MultipartOpening.OpeningDiscarded` | examples/quickstart/cpp/httplib.h:4687-4691 | a first chunk without the whole opening line is thrown away |
| `MultipartOpening.FormExactly` | examples/quickstart/cpp/httplib.h:4668-5034 | with header lines within the limit, in any chunks: a form is reported if and only if the first non-empty chunk holds the whole opening line and every item is faithful |
| `MultipartOpening.OpeningExactly` | examples/quickstart/cpp/httplib.h:4687-4698 | in particular every form of items the parser can give back is reported if and only if the first non-empty chunk holds the whole opening line |
| `MultipartOpening.DelimitersAre` | examples/quickstart/cpp/httplib.h:4989-5034 | where delimiters can begin in a serialized form: behind the start of a content only its own, then none before the blank line of the next item, unless in a file name with a reserved byte |
| `MultipartFields.WellFormedExactly` | examples/quickstart/cpp/httplib.h:3973-4014 | a header line is accepted if and only if a non-empty key stands in front of its first colon and something other than a blank behind it |
| `MultipartFields.FieldApplies` | examples/quickstart/cpp/httplib.h:4720-4774 | what each kind of header line does to a part: dispositions and types in any case and spacing set what they say, `filename*` is decoded and overrides, other fields change nothing; refused are exactly malformed lines, dispositions without a name and `filename*` in another charset |
| `MultipartForms.FormsExactly` | examples/quickstart/cpp/httplib.h:4680-4834 | a form whose parts have header lines of these kinds in any number and order, in any chunks that leave its opening line whole, is accepted if and only if all of its header lines are; it is then valid and reports each part with the file its lines stand for |
| `MultipartForms.OthersIgnored` | examples/quickstart/cpp/httplib.h:4729-4774 | with any lines of other fields put between the disposition and the type of its serialized items, a form still reports exactly the items and is valid, in any chunks that leave the opening line whole |
| `MultipartForms.FieldIgnorable` | examples/quickstart/cpp/httplib.h:4729-4774 | every `key: value` within the limit whose key is neither of the two is such a line |
| `MultipartForms.PreambleSkipped` | examples/quickstart/cpp/httplib.h:4687-4698 | what stands in front of the opening line in its chunk makes no difference |
| `MultipartForms.LongLineRefused` | examples/quickstart/cpp/httplib.h:4704-4708 | a form whose first header line is over the limit is refused in any chunks that leave the opening line whole |
| `MultipartForms.JunkWaits` | examples/quickstart/cpp/httplib.h:4806-4829 | bytes behind a delimiter that neither end the line nor close the form leave the parser waiting, in any chunks |
| `MultipartCallbacks.CallbacksHeeded` | examples/quickstart/cpp/httplib.h:4680-4834 | for every input, chunking and callbacks: nothing is reported behind a callback that refused, and then the parser has failed and the form is not valid |
| `MultipartLimits.HeaderSound` | examples/quickstart/cpp/httplib.h:4704-4780 | no header line, however malformed, yields a name with a reserved byte or an untrimmed content type |
| `SocketStream.Stream.Read` | examples/quickstart/cpp/httplib.h:5788-5834 | bytes handed out followed by the unread buffer and what the socket still holds are the bytes received: nothing lost or duplicated |
| `SocketStream.Stream.ReadAhead` | examples/quickstart/cpp/httplib.h:5815-5830 | the read-ahead branch keeps what was not asked for |
| `SocketStream.Stream.TakeBuffered` | examples/quickstart/cpp/httplib.h:5797-5808 | the branch served from the buffer alone |
| `LineReader.Reader.Append` | examples/quickstart/cpp/httplib.h:2744-2759 | appending to the fixed buffer or spilling over to the growing one extends the line by one byte |
| `LineReader.Reader.GetLine` | examples/quickstart/cpp/httplib.h:2694-2742 | the line is the bytes up to and including the first LF, or to the end, for any fixed buffer of two bytes or more, and exactly those are consumed |
| `ChunkedCoding.FromIToHex` | examples/quickstart/cpp/httplib.h:2387-2395 | the loop writes the hexadecimal text of a size |
| `ChunkedCoding.SizeLine` | examples/quickstart/cpp/httplib.h:4139-4147 | the size line reads back as the size for every 64-bit size |
| `ChunkedCoding.ReadWithLength` | examples/quickstart/cpp/httplib.h:4063-4089 | whatever the receiver answers, data read and bytes left are the bytes there were, and success means the full length; an accepting receiver of an error-free stream gets exactly so many bytes, or all there are |
| `ChunkedCoding.ReadTrailer` | examples/quickstart/cpp/httplib.h:4164-4193 | reads trailer lines up to the blank one |
| `ChunkedCoding.ReadContentChunked` | examples/quickstart/cpp/httplib.h:4123-4196 | over every byte stream and any short reads: verdict, data and bytes left over are those of the specification |
| `ChunkedCoding.Sink.PutData` | examples/quickstart/cpp/httplib.h:4407-4431 | one write to the sink emits one chunk; an empty one ends the loop without the last chunk |
| `ChunkedCoding.Sink.Finish` | examples/quickstart/cpp/httplib.h:4433-4480 | finishing emits the last chunk and the trailer |
| `ChunkedCoding.WriteContentChunked` | examples/quickstart/cpp/httplib.h:4397-4504 | the provider loop emits what the sink calls made before it ended stand for |
| `ChunkedRoundTrip.ChunkDecodes` | examples/quickstart/cpp/httplib.h:4123-4196 | a chunk in front of more input delivers its data and leaves the rest |
| `ChunkedRoundTrip.ChunkedExactly` | examples/quickstart/cpp/httplib.h:4063-4504 | the reader accepts what was written and delivers all data given to the sink if and only if the body was finished, with trailer lines within the limit up to the first blank one, and no data followed (section 7.1 of RFC 9112) |
| `ChunkedRoundTrip.LinesDecode` | examples/quickstart/cpp/httplib.h:4164-4193 | whatever the fields hold, a trailer is accepted if and only if no line in front of its first blank one is over the limit |
| `ChunkedRoundTrip.SingleLinesFit` | examples/quickstart/cpp/httplib.h:4164-4193 | for fields without line feeds that is so if and only if no field is over the limit |
| `ChunkedRoundTrip.TrailerDecodes` | examples/quickstart/cpp/httplib.h:4164-4193 | a trailer of single-line fields is accepted if and only if none of its lines is over the limit |
| `ChunkedRoundTrip.ChunkedConsumed` | examples/quickstart/cpp/httplib.h:4123-4504 | when finishing is the last call, with single-line fields, an accepted body leaves no byte over |
| `ChunkedGrammar.ChunkedExactlyParsed` | examples/quickstart/cpp/httplib.h:4123-4196 | whoever wrote them, the inputs accepted are exactly those that begin with a chunked body: chunks with their size lines and line ends, a line of size zero, trailer lines within the limit, a blank line; the data of the chunks is delivered and what is behind the body left |
| `ChunkedGrammar.CutRefused` | examples/quickstart/cpp/httplib.h:4123-4196 | a chunked body cut short anywhere is refused |
| `ChunkedGrammar.SizeReads` | examples/quickstart/cpp/httplib.h:4135-4146 | a size line is read as its hexadecimal digits in either case, behind white space, sign and `0x`, up to an extension, saturating at the largest word |
| `ChunkedGrammar.NoSize` | examples/quickstart/cpp/httplib.h:4141-4143 | a line without a digit has no size |
| `ThreadPool.StepKeeps` | examples/quickstart/cpp/httplib.h:663-742 | every step of every worker and caller keeps conservation, wake-ups and the record of late jobs |
| `ThreadPool.PoolConserves` | examples/quickstart/cpp/httplib.h:678-689 | over every interleaving: jobs are taken in the order accepted, each taken job is being run or has run once, the queue keeps a positive bound |
| `ThreadPool.EnqueueExactly` | examples/quickstart/cpp/httplib.h:676-687 | behind every run a job is accepted if and only if there is no bound or fewer jobs than the bound have been accepted and not taken; a refused one changes nothing |
| `ThreadPool.OnlyWorkersTake` | examples/quickstart/cpp/httplib.h:705-730 | no other event accepts a job; only a worker that looks at the queue takes one, the oldest not yet taken, or leaves behind shutdown, or sleeps; a job has run when its worker is done with it |
| `ThreadPool.AllRanExactly` | examples/quickstart/cpp/httplib.h:691-722 | once all workers have left, all accepted jobs have run if and only if none was accepted after the last one left |
| `ThreadPool.OrderlyNeverLate` | examples/quickstart/cpp/httplib.h:678-722 | with a worker and no enqueueing after shutdown, no job is late |
| `ThreadPool.LateNeverRuns` | examples/quickstart/cpp/httplib.h:706-730 | a job accepted after that never runs, whatever happens |
| `ThreadPool.LateIsPossible` | examples/quickstart/cpp/httplib.h:678-722 | from every run with `shutdown` behind it and no late job yet, steps of the pool alone lead to where the next job enqueued is accepted and never run |
| `ThreadPool.RestMeansDone` | examples/quickstart/cpp/httplib.h:678-730 | no wake-up is lost: a pool at rest has run every accepted job or has no worker left |
| `ThreadPool.ShutdownEnds` | examples/quickstart/cpp/httplib.h:691-704 | behind shutdown the pool takes a bounded number of steps in any interleaving, and at its end every worker has left |
| `ClientSocket.StepKeeps` | examples/quickstart/cpp/httplib.h:7328-7431 | every critical section keeps the invariant of the shared socket |
| `ClientSocket.SafeInEveryRun` | examples/quickstart/cpp/httplib.h:7248-7282 | in every interleaving of any number of threads: the counter is the number of requests in flight, they belong to the recorded thread holding the request mutex, no assertion fails, no socket is closed under a foreign request |
| `ClientSocket.StopSpares` | examples/quickstart/cpp/httplib.h:8475-8496 | `stop` shuts down without closing exactly when some request is in flight, and closes otherwise |
| `ClientSocket.EnterExactly` | examples/quickstart/cpp/httplib.h:7339-7392 | behind every run `send_` keeps a live connection, makes another one otherwise, goes ahead if and only if it then has one, and leaves no socket behind if not |
| `ClientSocket.LeaveExactly` | examples/quickstart/cpp/httplib.h:7403-7417 | behind every run the end of a request closes the socket if and only if it failed, the connection is not to be kept, or `stop` was called since the last `send_` began; otherwise it leaves the socket as it was |
| `ClientSocket.OthersExactly` | examples/quickstart/cpp/httplib.h:7248-7282 | no other event but an early close touches the socket; calls begin and end innermost first, and the request mutex is free exactly while there is none |
| `ClientSocket.StopHonoured` | examples/quickstart/cpp/httplib.h:8475-8496 | a `stop` leaves the socket closed once nothing is in flight, if no `send_` began since |
| `ClientSocket.StopForgotten` | examples/quickstart/cpp/httplib.h:7340-7345 | the proviso is needed from every state with a request in flight: a redirect forgets the `stop` and its connection can stay open |
| `ClientSocket.NeverStuck` | examples/quickstart/cpp/httplib.h:7328-7431 | no deadlock: the owner of the request mutex can always move on |
| `PathParams.Compile` | examples/quickstart/cpp/httplib.h:5891-5940 | the constructor loop yields fragments and names, or the first name that repeats |
| `PathParams.RefusesExactly` | examples/quickstart/cpp/httplib.h:5919-5925 | a pattern is refused if and only if a name repeats |
| `PathPatterns.CompilesExactly` | examples/quickstart/cpp/httplib.h:5891-5938 | a pattern told by its texts and parameter names compiles to exactly these, with or without a separator at its end, or is refused with the first name that occurred before |
| `PathPatterns.EveryPattern` | examples/quickstart/cpp/httplib.h:5891-5938 | every pattern is written from such texts and names |
| `PathParams.Match` | examples/quickstart/cpp/httplib.h:5942-5985 | the matching loop computes the specification, bindings included |
| `PathParams.SubstituteIsRender` | examples/quickstart/cpp/httplib.h:5904-5939 | putting values into the pattern text is interleaving them with the fragments |
| `PathParams.MatchInvertsSubstitution` | examples/quickstart/cpp/httplib.h:5942-5985 | a path made from slash-free values, with or without a separator at the end behind a last parameter, is accepted and binds each name to its value |
| `PathParams.MatchesOnlyFits` | examples/quickstart/cpp/httplib.h:5942-5985 | where no fragment has a NUL before its last byte, a path is accepted only for values that fit, which are the ones bound |
| `PathParams.AcceptsForged` | examples/quickstart/cpp/httplib.h:5958-5963 | any other pattern accepts, for any values, a path that fits none |
| `PathParams.MatchesExactly` | examples/quickstart/cpp/httplib.h:5942-5985 | a pattern accepts only paths that fit it if and only if no fragment has a NUL before its last byte |
| `Ranges.InsideExactly` | examples/quickstart/cpp/httplib.h:5036-5056 | offset and length, wrap-around included, lie in the content if and only if the range does |
| `Ranges.SelectsSlice` | examples/quickstart/cpp/httplib.h:5036-5056 | and then they denote the first-to-last, open-ended or suffix slice (section 14.1.2 of RFC 9110) |
| `Ranges.Target.WriteContent` | examples/quickstart/cpp/httplib.h:4314-4350 | the provider loop writes exactly the slice asked for, in however many pieces |
| `Ranges.ProcessMultipartRanges` | examples/quickstart/cpp/httplib.h:5074-5117 | the shared loop counts, or writes, the same parts |
| `Ranges.Respond` | examples/quickstart/cpp/httplib.h:6855-6890 | the body is the slices the ranges stand for, framed when there are several, and the announced length is its length if and only if that fits a size |
| `RangeReading.PartsRead` | examples/quickstart/cpp/httplib.h:5058-5110 | a client that reads the framed parts finds for each range its type, its bounds as asked for, the length of the whole content, and exactly the bytes the range stands for |
| `HarvestSpec.MemoryTelescopes` | pkg/internal/infraolly/process/harvest.go:165-171 | memory deltas of one process, resident and virtual, add up to its latest memory use |
| `HarvestSpec.MemoryAddsUp` | pkg/internal/infraolly/process/harvest.go:79-117 | for any samples they add up to the latest use of the first process and every use found for another one |
| `HarvestSpec.TakeoverReportsAll` | pkg/internal/infraolly/process/harvest.go:99-101 | in every round that finds another process under the PID than the first one, it reports all its memory, resident and virtual, as a delta, and the cache keeps the first one |
| `HarvestSpec.MemoryExactly` | pkg/internal/infraolly/process/harvest.go:79-117 | in any round, for resident and virtual memory, they add up to the use found last if and only if no process but the first was found using memory in an earlier round and, where the last round finds another one, the first used none when it was found last |
| `HarvestSpec.MemoryKept` | pkg/internal/infraolly/process/harvest.go:79-117 | for processes using memory the deltas add up in every round if and only if the PID keeps its process |
| `HarvestSpec.CpuTelescopes` | pkg/internal/infraolly/process/harvest.go:144-156 | processor time deltas add up to the latest time less that of the first busy sample |
| `HarvestSpec.IoTelescopes` | pkg/internal/infraolly/process/harvest.go:178-196 | byte deltas add up to the last counter read, modulo its width and across failed reads |
| `HarvestSpec.NetNeverNegative` | pkg/internal/infraolly/process/harvest.go:206-214 | network deltas are never negative, whatever the counters do and whichever processes the PID stands for |
| `HarvestSpec.NetExactly` | pkg/internal/infraolly/process/harvest.go:198-217 | of counters that do not shrink, received and transmitted deltas each add up to at most the latest counter, and to exactly it if and only if no round had traffic that way without any the other way |
| `Collector.Lru.Get` | vendor/github.com/hashicorp/golang-lru/v2/simplelru/lru.go:70-76 | a hit makes the key the most recent, a miss changes nothing |
| `Collector.Lru.Add` | vendor/github.com/hashicorp/golang-lru/v2/simplelru/lru.go:50-68 | the key becomes the most recent; nothing is evicted from an unbounded cache |
| `Collector.Lru.Remove` | vendor/github.com/hashicorp/golang-lru/v2/simplelru/lru.go:96-104 | only that key goes |
| `Collector.Lru.RemoveOldest` | vendor/github.com/hashicorp/golang-lru/v2/simplelru/lru.go:106-113 | the least recent key goes |
| `Collector.Harvester.GetLinuxProcess` | pkg/internal/infraolly/process/snapshot.go:108-148 | the cached process is updated in place if command and parent are unchanged; otherwise it is left alone and a fresh one made |
| `Collector.Harvester.PopulateGauges` | pkg/internal/infraolly/process/harvest.go:141-174 | the gauges and deltas against the sample before |
| `Collector.Harvester.PopulateIoCounters` | pkg/internal/infraolly/process/harvest.go:178-196 | a failed read changes nothing; an unprivileged harvester reads nothing |
| `Collector.Harvester.PopulateNetworkInfo` | pkg/internal/infraolly/process/harvest.go:198-217 | the network deltas, clamped together |
| `Collector.Harvester.Harvest` | pkg/internal/infraolly/process/harvest.go:79-117 | status reported, recency and contents of the cache afterwards; no other entry changes |
| `Collector.Collector.CollectOne` | pkg/internal/infraolly/process/collect.go:114-124 | a harvested process moves to the recent end, one that failed leaves the cache |
| `Collector.Collector.Purge` | pkg/internal/infraolly/process/collect.go:126-130 | the purge stops with exactly the processes harvested in this round |
| `Collector.Collector.Collect` | pkg/internal/infraolly/process/collect.go:108-133 | for any iteration order and failures: the cache holds exactly the processes harvested, each brought forward by its sample; one status each; all others are reported as removed |
| `Collector.Collector.Run` | pkg/internal/infraolly/process/collect.go:79-106 | over any events: cached knowledge and every batch sent are those of the abstract run, where after each tick the processes to harvest are those in the cache |
| `Collector.RunFollows` | pkg/internal/infraolly/process/collect.go:79-106 | a process that joins at any event, for the first time or again, and is found at every tick since stays in the run, and the cache follows its samples |
| `Collector.RunReports` | pkg/internal/infraolly/process/collect.go:79-133 | what a tick reports about it is what the telescoping results speak about |
| `Collector.WantedExactly` | pkg/internal/infraolly/process/collect.go:91-97 | a batch of spans asks for exactly the PIDs of its services that want process metrics |
| `CollectorRuns.HarvestedExactly` | pkg/internal/infraolly/process/collect.go:79-106 | harvested next are exactly the processes asked for that could be read at every tick since |
| `CollectorRuns.SentExactly` | pkg/internal/infraolly/process/collect.go:79-133 | each tick of every run sends one status for each process asked for that could be read at every tick since, with the gauges of its sample, and no other status |
| `CollectorRuns.SentWasAsked` | pkg/internal/infraolly/process/collect.go:79-106 | every status of every batch is of a PID for which spans before that tick named a service that wants process metrics |
| `SemVer.CompareIntIsValue` | vendor/golang.org/x/mod/semver/semver.go:322-337 | comparing lengths, then texts, compares the numbers |
| `SemVer.CompareRestIs` | vendor/golang.org/x/mod/semver/semver.go:363-398 | the loop over suffix texts computes the order of their identifier lists |
| `SemVer.CompareIsPrecedence` | vendor/golang.org/x/mod/semver/semver.go:119-140 | on valid versions the textual comparison is the precedence of section 11 of Semantic Versioning 2.0.0 |
| `SemVer.CompareLaws` | vendor/golang.org/x/mod/semver/semver.go:113-140 | comparison is a total preorder on all strings, invalid ones included |
| `SemVerText.ValidExactly` | vendor/golang.org/x/mod/semver/semver.go:182-240 | a string is a valid version if and only if it is `v`, one to three decimal numbers without leading zeros, and behind three of them a prerelease and a build of well-formed identifiers |
| `SemVerText.CompareExactly` | vendor/golang.org/x/mod/semver/semver.go:113-140 | on such texts one version is below another if and only if the first of their numbers to differ is smaller, missing ones counting as zero, or, with the same numbers, its prerelease comes first identifier by identifier |
| `SdkCleanup.Scanner.FindExistingProcesses` | pkg/webhook/scanner.go:68-111 | the scan computes the running minimum and groups the processes by container |
| `SdkCleanup.OldestIsMinimum` | pkg/webhook/scanner.go:85-92 | in any order the scan ends at a version in use that no other undercuts, or at the dummy if none is below it |
| `SdkCleanup.OrderDoesNotMatter` | pkg/webhook/scanner.go:76-92 | what is removed depends on the set of versions in use only |
| `SdkCleanup.CleanupOldInstrumentationVersions` | pkg/webhook/server.go:340-375 | removes the stale directories up to the first failure; nothing for an invalid minimum |
| `SdkCleanup.EstablishInitialProcessState` | pkg/webhook/server.go:171-191 | what the start-up removes, and that it removes nothing with image volumes or unmanaged versions |
| `SdkCleanup.ThresholdExactly` | pkg/webhook/server.go:178-188 | the directories taken for stale are those below the package version and everything in use if and only if some version in use is below v999.999.999 or none is below the package version |
| `SdkCleanup.RemovesInUse` | pkg/webhook/scanner.go:60-66 | otherwise a version in use is taken for stale |
| `SdkCleanup.OrdinaryIsCovered` | pkg/webhook/scanner.go:43-66 | a package version up to v999.999.999 always meets that condition |
| `SdkCleanup.CleansExactly` | pkg/webhook/server.go:340-375 | clean-up without I/O errors removes exactly the directories named by a valid version below the package version and every version in use |
| `SdkCleanup.CleansSafely` | pkg/webhook/server.go:340-375 | whatever fails on the way, under the covering condition nothing is removed but directories named by a valid version below the package version and every version some running process carries |
| `EnvSpec.ApplyFrames` | pkg/webhook/mutator.go:432-458 | original names keep their places, new ones come behind; only the first entry of a name that is set changes |
| `EnvSpec.ResolvedExactly` | pkg/webhook/env_vars.go:316-327 | whatever the environment defines beforehand, generated references are resolved if and only if those left in variables that were there already stand behind what they name |
| `PodMutation.Container.SetEnvVarEvenIfEmpty` | pkg/webhook/mutator.go:440-451 | sets in place or appends |
| `PodMutation.Container.SetEnvVar` | pkg/webhook/mutator.go:453-458 | leaves the list alone for an empty value |
| `PodMutation.Container.SetEnvVarFromFieldPath` | pkg/webhook/env_vars.go:316-327 | always appends, and returns a reference |
| `PodMutation.Container.SetResourceAttributes` | pkg/webhook/env_vars.go:105-146 | fields first, then service variables; annotations take precedence over all other attributes |
| `PodMutation.Container.ConfigureContainerEnvVars` | pkg/webhook/env_vars.go:36-103 | the updates of the container in order |
| `PodMutation.Container.DisableUndesiredSdks` | pkg/webhook/env_vars.go:365-382 | an empty path for every supported language that is not enabled |
| `PodMutation.Container.AddEnvVars` | pkg/webhook/mutator.go:460-486 | all updates of a container, in the order of the plan |
| `PodMutation.PlanSound` | pkg/webhook/env_vars.go:36-146 | the plan writes references only behind the fields they name, each to a variable it did not name before |
| `PodMutation.ReferencesExactly` | pkg/webhook/env_vars.go:105-146 | every generated reference stands behind the variable it names if and only if this holds for each variable that gets one, was there already and is not overridden by an export header |
| `PodMutation.FreshReferences` | pkg/webhook/env_vars.go:105-146 | in particular if the container has none of the service and attribute variables beforehand |
| `PodMutation.PlanLeaves` | pkg/webhook/mutator.go:460-486 | which references are left in which variable once all updates are made |
| `PodValues.PlanFinal` | pkg/webhook/mutator.go:460-486 | the last update of each variable writes the value of a table of all variables, or the text of its last export header |
| `PodAttributes.AttributesExactly` | pkg/webhook/env_vars.go:105-146 | which resource attributes there are, each with the value of its strongest source |
| `PodAttributes.AttributesRead` | pkg/webhook/env_vars.go:92-103 | once references are expanded, splitting the list at its commas gives `key=value` for each key in order, if no key or value has commas or outer blanks |
| `PodMutator.Pod.MutatePod` | pkg/webhook/mutator.go:289-338 | the pod is mutated in place as specified and a change reported exactly when its spec differs |
| `PodValues.MutatedExactly` | pkg/webhook/mutator.go:289-338 | exactly the pods that match and bear no mark of instrumentation are mutated: labelled, given the volume, and each container without LD_PRELOAD given the mount, the values of the table, the export headers and the pod fields, all other variables staying what they were |
| `PodMutator.MutationFrames` | pkg/webhook/mutator.go:309-317 | containers with LD_PRELOAD are untouched; in the others original variables keep name and place, and entries whose names are not set stay as they are |
| `PodMutator.MutationIdempotent` | pkg/webhook/mutator.go:289-338 | a second mutation reports no change and makes none, for empty package versions as well |
| `PodMutator.MutationRecognised` | pkg/webhook/mutator.go:324-338 | with a package version every mutated pod is recognised as instrumented |
| `Bouncer.KeyInjective` | pkg/webhook/bouncer.go:37-43 | keys of namespaces without a colon, the only ones Kubernetes admits, tell trimmed namespaces and deployments apart |
| `Bouncer.KeyExactly` | pkg/webhook/bouncer.go:37-43 | on all strings, white space being ASCII: a namespace and a deployment share their key with no others if and only if neither trimmed name has a colon with no space beside it |
| `Bouncer.PodBouncer.RestartDeployment` | pkg/webhook/bouncer.go:57-110 | marks before it tries, whatever the cluster answers |
| `Bouncer.Server.On` | pkg/webhook/server.go:250-286 | the ledger after an event is that of its processes considered one by one |
| `Bouncer.Server.Run` | pkg/webhook/server.go:250-303 | the same over any sequence of events |
| `Bouncer.AtMostOnce` | pkg/webhook/server.go:232-248 | no two restarts share a key |
| `Bouncer.RestartsJustified` | pkg/webhook/server.go:266-281 | every restart was made for a process that is missing instrumentation it should have, or has instrumentation it should not |
| `Bouncer.OneRestartEach` | pkg/webhook/server.go:232-286 | over all events: one restart for each key that some process asks for, and no other |
| `BouncerRuns.NeedsRestartExactly` | pkg/webhook/mutator.go:132-169 | a process asks for a restart if and only if it runs this version by its label, or else by its environment, and does not match, or does not run it, matches, is of an enabled kind and preloads nothing else |
| `BouncerRuns.AffectedExactly` | pkg/webhook/server.go:250-303 | the processes looked at are exactly those in containers of pods created or updated, with the labels and names of those pods |
| `BouncerRuns.RestartsDue` | pkg/webhook/server.go:232-286 | over all events, every restart names the deployment of such a process of such a pod |
| `BouncerRuns.DueRestarted` | pkg/webhook/server.go:232-286 | and every deployment of such a process that can be named is restarted, or another one of the same key |
| `BouncerRuns.TrimmedExactly` | pkg/webhook/bouncer.go:41-43 | names are trimmed by taking the white space around them away |

## Left out

- TLS, compression, sockets and their timeouts: a stream is a byte sequence with arbitrary short reads, and results about what is read are stated for streams that report no error.
- Failing writes to a stream and shutdown during a write: every write of the chunked and range writers succeeds.
- The regular expression engine: the patterns for header lines, dispositions and `filename*` are explicit matchers; the pattern for the `Range` header is not modelled, ranges are given as the parser lets them through.
- Epilogues of multipart bodies: not produced by the serializer.
- MultipartChunks.ChunkIndependence: asks for accepting callbacks, for header lines within the length limit, because the limit is only checked on entry to the header state, and for nothing behind the closing delimiter, because what is there is dropped as far as the chunk reaches; it starts past the opening line, because a partial one is discarded. How a content is grouped into events depends on the chunks, so parts are compared.
- MultipartChunks.RunPlus: the same hypotheses.
- MultipartNames.RoundTripExactly: asks for header lines within the length limit.
- MultipartFields.FieldApplies: dispositions with other parameters than `name`, `filename` and `filename*`, or with one of them repeated, are not among its kinds of lines; `MultipartLimits.HeaderSound` covers them.
- MultipartForms.FormsExactly: asks for header lines within the length limit and of those kinds.
- MultipartOpening.FormExactly: the same.
- MultipartOpening.OpeningExactly: asks for items that can be given back at all, as `MultipartNames.RoundTripExactly` characterises them.
- ChunkedCoding.ReadTrailer: does not model what becomes of trailer fields, only which lines are consumed.
- ChunkedCoding.ReadContentChunked: result and bytes left are stated for receivers that accept and streams without errors only.
- ChunkedCoding.Sink.PutData: failing writes.
- ChunkedCoding.Sink.Finish: failing writes.
- ChunkedCoding.WriteContentChunked: failing writes, and shutdown while the provider runs.
- ChunkedRoundTrip.ChunkedExactly: asks for data shorter than the largest size.
- ChunkedRoundTrip.ChunkedConsumed: asks for single-line trailer fields; a blank line inside a field leaves what is behind it unread.
- Line reading allocates its growing buffer without limit.
- ClientSocket.SafeInEveryRun: models the TLS entry steps only as a connection attempt that may fail; destruction of a client in use is excluded by its contract with callers. The counter is unbounded, so that an underflow would show as a negative number.
- ClientSocket.StopHonoured: one direction only; whether a later `send_` reopens the socket depends on the peer.
- ThreadPool: exceptions thrown by jobs.
- Ranges.Target.WriteContent: failing writes, and providers that cancel or write more than they are asked for.
- Ranges.ProcessMultipartRanges: asks for ranges inside the content, outside of which the provider would be asked for bytes it does not have.
- Ranges.Respond: the same; unsatisfiable ranges, and bodies held in memory instead of a provider.
- Collector.Harvester.PopulateGauges: utilisation ratios and file descriptor counts.
- HarvestSpec: utilisation ratios, file descriptor counts, user and command line look-ups. Processor times are real numbers, so rounding is not modelled.
- Collector.Collector.Run: cancellation and the channel ticker; a run is any sequence of span batches and ticks.
- SdkCleanup: detection of languages; reading of process environments, which is an input.
- SemVer: canonical forms and sorting, which the webhook does not use. Build suffixes are checked but, as in the library, not compared.
- PodMutation.Container.SetResourceAttributes: owner labels are part of the configured attributes, and the choosing chains are inputs.
- PodMutation: the chains that choose service names, versions and namespaces are inputs, as is the order of sorted attribute keys; a text supplied by a user counts as literal even if it looks like a reference.
- PodMutator: JSON, admission reviews and patches.
- Bouncer.KeyExactly: trimming is modelled for ASCII white space, where the source also trims other Unicode spaces.
- Bouncer: process metadata is a value computed for each event, where the source overwrites the fields of the scanned process; every field read is written for the same event before.
- The survey reporters, exporters, configuration loading and Kubernetes clients.
