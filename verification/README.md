# A verified model of the key-value server and its web framework

The server keeps a table of named values, answers get and set requests over HTTP, saves the table
to a file and loads it again. Requests run through the web framework that is checked in with it.
This project models both and proves, in Dafny 4.11, what their hardest parts promise. Verify it with
`dafny verify dfyconfig.toml`.

Each component is an imperative model next to a specification in functions. The methods have the
loops, cursors, marks, in-place writes and branches of the source; their contracts tie them to the
specification; the lemmas prove what the specification promises.

- HTTP (`HttpChars`, `HttpMethods`, `HttpControl`, `HttpMessage`, `HttpSteps`, `HttpSyntax`,
  `HttpTargets`, `HttpStartLines`, `HttpValues`, `HttpCodings`, `HttpNames`, `HttpHeaders`, `HttpChunks`,
  `HttpRequests`, `HttpFolding`, `HttpExecute`, `HttpInvariants`, `HttpHistory`, `HttpLimits`,
  `HttpConnection`). `HttpControl.Step` is the parser byte by byte, `HttpMessage.Run` its fold over a
  text. The class `HttpExecute.HttpParser` has the bulk loops, marks and late counting of the source and
  refines that fold for every cutting into buffers.
  `HttpRequests` shows that the parser inverts the writing of requests, for any header lines and any
  framing of the body; `HttpHistory` and `HttpStartLines` go the other way and say, for every input,
  what the state and the delivered requests tell about its text. `HttpSyntax` has the grammar of the
  standard by character codes, apart from the tables of the parser.
- Routing (`RoutePatterns`, `RouteNodes`, `RouteBuild`, `RouteRules`, `RouteCompress`, `RouteTrie`,
  `RouteTable`, `RouteHoles`, `RouteRecords`). The reference is a scan over all patterns. The character
  trie, its radix compression in place and the backtracking search agree with it; so does the dispatch
  of a method's table. `RouteHoles` says what the typed holes take, `RouteRecords` follows rules of the
  server from their text to the dispatch.
- JSON (`JsonText`, `JsonGrammar`, `JsonSyntax`, `JsonLayouts`, `JsonDump`, `JsonReader`, `JsonParser`,
  `JsonRoundTrip`). The parser walks over a buffer that it rewrites while it reads; `Denotes` says what
  a token means in the buffer as it then is. Printing, loading and rebuilding a tree gives the tree.
  `JsonLayouts` describes the texts that write a value, which are exactly those the reader accepts.
- Templates (`MustacheTemplate`, `MustacheRender`, `MustacheParser`, `MustacheInterpreter`,
  `MustacheEscape`). The compiled form is a flat list of actions with jump positions; the interpreter
  means recursion over the block tree. `MustacheEscape` reads escaped text back and says when a section
  shows.
- WebSocket (`Vectors`, `WebSocketFrame`, `WebSocketConnection`, `WebSocketMessages`). The read state
  machine recovers frames from reads of any size and reassembles messages with control frames anywhere
  and a close at the end.
- Engine (`EngineSteps`, `EngineCounts`, `EngineServer`). Gets and sets are sequences of atomic steps
  under the shared or exclusive lock, in any interleaving; the sequential methods are the same steps
  performed alone; a run of `main` loads, serves, saves and reloads.
- Codecs and timer (`Sha1`, `Filename`, `FilenameRules`, `Multipart`, `MultipartForm`, `Base64`,
  `TaskTimer`).

What the code does where one might expect something else is stated and proved as it is:

- A header with an empty value is dropped unless it is the last header (`HttpRequests.HeadersOf`).
  Trailers of a chunked body are added to the headers, except the last trailer, which is lost; and
  their bytes stay counted against the limit on the next header block (`HttpRequests.LastChunkRun`).
- A Connection value that starts with a NUL byte runs into an assert of the parser
  (`HttpLimits.NulValueAsserts`). `HttpInvariants.AssertsExactly` says exactly when that happens in terms
  of the state, `HttpHistory.AssertsOnText` in terms of the header's text; without NUL bytes it never
  does (`HttpInvariants.RunSound`).
- In a Transfer-Encoding list a comma directly behind "chunked", or behind a beginning of that word, is
  overlooked, so that "chunked, chunked" is not taken for chunked (`HttpCodings.CommaOverlooked`); which
  lists are is `HttpCodings.EndsChunked`, and `HttpCodings.EncodingExactly` proves it for all values.
- Numbers are refused by a conservative test before they could wrap around, so the five decimal
  lengths just below the sentinel 2^64-1 are refused although they would fit (`HttpValues.LengthExactly`).
- A request target in absolute form may have any scheme of letters; one that begins with an asterisk may
  go on like a path; an authority may hold `@` more than once, but not twice in a row
  (`HttpSyntax.Target`, `HttpTargets.TargetExactly`).
- The first byte of a header value is not looked up in the table of allowed bytes
  (`HttpLimits.PlainExactly`). A value that goes on behind its line end does not count as chunked,
  keep-alive or close any more (`HttpFolding.FoldedLine`).
- A header whose name only begins with Transfer-Encoding counts as a transfer coding
  (`HttpLimits.LongNameRefused`).
- The JSON reader counts two levels for each container, so 5000 nested containers are accepted and
  5001 are not, where the constant reads 10000 (`JsonDump.RoundTrip`).
- The JSON reader takes each code of a surrogate pair for a character of its own and writes three bytes
  for it (`JsonSyntax.CodeExactly`); it accepts the numbers `1.` and `1e+`, and refuses `0e1`
  (`JsonSyntax.NumberForm`); a NUL byte ends the text, whatever follows (`JsonLayouts.TextExactly`).
- SHA-1 writes 32 bits of the length, which is the standard padding exactly below 2^29 bytes
  (`Sha1.PaddingStandard`).
- The scan that decides whether a tag stands in an object block counts closed inverted sections but
  not their openings (`MustacheRender.InsideMeans`).
- The inner loop over a header value may jump over one byte without looking at it, only when the
  header limit is already exceeded (`HttpExecute.HttpParser.SkipValue`); the error is then the
  overflow, whatever that byte was. Errors of a value that is both too long and malformed are told
  apart only up to this (`HttpExecute.FailsWith`).

Values that come from outside are parameters: the clock, the sizes of reads and their cutting, the
lookup of names in a template's context, the partial templates, the conversion of floating-point
numbers, and the enumeration order of hash tables. A C `char` is a Dafny `char` below 256 where bytes
matter, unsigned counters carry their wrap-around (`uint64`, `WRAP`), and moved-from strings are
taken to be empty.

## Model

| member | source | states |
|---|---|---|
| HttpMethods.RecogniseSound | dependency/CrowCpp/include/crow/http_parser_merged.h:771-864 | A text that the guess-and-correct table accepts so far is a beginning of the name of the method it has settled on, so no text is ever taken for another method. |
| HttpMethods.RecogniseComplete | dependency/CrowCpp/include/crow/http_parser_merged.h:771-864 | The name of each of the 34 methods is recognised, as that method, although the table only compares one character at a time. |
| HttpMethods.CorrectSharesPrefix | dependency/CrowCpp/include/crow/http_parser_merged.h:828-864 | Changing the guessed method never invalidates the characters already read: both names agree before the current position. |
| HttpMessage.RunAppend | dependency/CrowCpp/include/crow/http_parser_merged.h:732-758 | The meaning of a concatenation is the meaning of its first part continued with its second: what survives between bytes is all the parser depends on. |
| HttpMessage.RunStopped | dependency/CrowCpp/include/crow/http_parser_merged.h:1912-1917 | Once a byte has failed or upgraded the connection, later bytes change nothing. |
| HttpTargets.TargetExactly | dependency/CrowCpp/include/crow/http_parser_merged.h:486-643 | Request targets, for every text without a space or a line end: it is taken for a target and kept as it is if and only if it is one in the sense of the standard, an authority for CONNECT, otherwise a path that begins with a slash or an asterisk, or a scheme of letters, colon, two slashes, an authority and a path; all told by the codes of the bytes. Every other text is an invalid URL. |
| HttpStartLines.LineTaken | dependency/CrowCpp/include/crow/http_parser_merged.h:771-1054 | Every request line, with any number of spaces, any target, HTTP or for SOURCE also ICE, a one-digit version or none at all for GET, and either line end, is read as its method, target and version. |
| HttpStartLines.RunSaid | dependency/CrowCpp/include/crow/http_parser_merged.h:690-1926 | Conversely, for every input: each request that is handed over, and the one under construction, goes back to a request line of exactly that form in the input which says its method, target and version. |
| HttpRequests.StartLineRun | dependency/CrowCpp/include/crow/http_parser_merged.h:771-1054 | In particular a request line as it is usually written is read as its method, target and version, for every method and every target. |
| HttpFolding.BlankLines | dependency/CrowCpp/include/crow/http_parser_merged.h:769-771 | Line ends in front of a request are passed over. |
| HttpNames.TokenTable | dependency/CrowCpp/include/crow/http_parser_merged.h:648-680 | The bytes a header name may hold are those of a token in section 3.2.6 of RFC 7230, and they are compared in lower case. |
| HttpValues.FieldTable | dependency/CrowCpp/include/crow/http_parser_merged.h:461-462 | The bytes a header value may hold are the tab and all from 32 on but 127. |
| HttpNames.NameRecognition | dependency/CrowCpp/include/crow/http_parser_merged.h:1056-1235 | A header name is taken for Connection, Proxy-Connection, Content-Length, Transfer-Encoding or Upgrade exactly when it is that word up to case; every other token name is an ordinary one. |
| HttpNames.EncodingRecognition | dependency/CrowCpp/include/crow/http_parser_merged.h:1189-1202 | The parser remembers a transfer encoding exactly for names whose first 17 characters are transfer-encoding up to case, also when the name goes on. |
| HttpValues.LengthExactly | dependency/CrowCpp/include/crow/http_parser_merged.h:1293-1428 | For every value that starts with a digit: it is accepted if and only if, but for spaces behind it, it is a decimal number whose digits before the last stay below the overflow test; then the length is exactly that number and less than 2^64-1, and otherwise the error is an invalid content length. |
| HttpValues.LengthPadded | dependency/CrowCpp/include/crow/http_parser_merged.h:1395-1428 | In particular a number that passes the test is read exactly, spaces behind it or not, with no wrap-around and never as the sentinel 2^64-1. |
| HttpCodings.ListStep | dependency/CrowCpp/include/crow/http_parser_merged.h:1434-1463 | One more byte of a Transfer-Encoding value keeps the exact account of the coding that is being matched and of where the last coding of the list begins. |
| HttpCodings.EncodingExactly | dependency/CrowCpp/include/crow/http_parser_merged.h:1273-1286 | For every Transfer-Encoding value, lists included: it is taken for chunked if and only if the last coding of its list is the word chunked up to case and spaces, where a comma directly behind a beginning of that word or behind the word itself does not end a coding. |
| HttpCodings.ChunkedAlone | dependency/CrowCpp/include/crow/http_parser_merged.h:1278-1286 | The single coding chunked, in any case and with spaces behind it, is taken for chunked. |
| HttpCodings.TwoCodings | dependency/CrowCpp/include/crow/http_parser_merged.h:1434-1470 | A coding that is no beginning of chunked, a comma, any spaces and chunked: taken for chunked. |
| HttpCodings.CommaOverlooked | dependency/CrowCpp/include/crow/http_parser_merged.h:1456-1490 | Behind chunked, or a beginning of it, the comma does not start a new coding: chunked, chunked is not taken for chunked. |
| HttpValues.ProgressStep | dependency/CrowCpp/include/crow/http_parser_merged.h:1465-1492 | One more byte keeps the exact account of how much of keep-alive or close has been matched. |
| HttpValues.ConnectionValue | dependency/CrowCpp/include/crow/http_parser_merged.h:1307-1322 | For every value of a Connection header: it counts as keep-alive, or as close, if and only if it is that word up to case and spaces behind it. |
| HttpHeaders.LineRun | dependency/CrowCpp/include/crow/http_parser_merged.h:1056-1571 | Reading a header line of any kind from any state between two lines: white space before the value is dropped, name and value are handed on unchanged, an empty value together with the byte after the line, and the flags and the length change as the kind of the line says. |
| HttpHeaders.EncodingRun | dependency/CrowCpp/include/crow/http_parser_merged.h:1189-1571 | The same for Transfer-Encoding lines: the chunked flag is set if and only if the last coding of the list is chunked. |
| HttpLimits.PlainExactly | dependency/CrowCpp/include/crow/http_parser_merged.h:1334-1383 | The value of an ordinary header, whatever its bytes: it is kept as it is if and only if every byte behind the first may stand in a field value; the first one is never looked up. |
| HttpLimits.NameRefused | dependency/CrowCpp/include/crow/http_parser_merged.h:1068-1235 | A header name that meets a byte which is neither part of a token nor the colon is refused. |
| HttpFolding.LineFeedAlone | dependency/CrowCpp/include/crow/http_parser_merged.h:1254-1551 | A line feed alone, behind a value, in front of one or at the end of the header block, does what carriage return and line feed do, up to the number of bytes counted. |
| HttpFolding.FoldedLine | dependency/CrowCpp/include/crow/http_parser_merged.h:1522-1531 | A header line that goes on behind its line end (section 3.2.4 of RFC 7230): the parts of the value are joined without the line end, and the line does not count as chunked, keep-alive or close, whatever its first part says. |
| HttpFolding.FoldedLength | dependency/CrowCpp/include/crow/http_parser_merged.h:1300-1304 | A Content-Length that goes on is accepted if and only if only spaces follow behind the first blank. |
| HttpFolding.LateValue | dependency/CrowCpp/include/crow/http_parser_merged.h:1557-1571 | A value that begins on the line behind its name is read as if it stood on the line of the name. |
| HttpChunks.HexWritten | dependency/CrowCpp/include/crow/http_parser_merged.h:683-698 | Every number is read back from its hexadecimal digits, in either case and with leading zeros or without. |
| HttpChunks.SizeRefused | dependency/CrowCpp/include/crow/http_parser_merged.h:1774-1804 | A byte that is no hexadecimal digit and ends no chunk size is refused. |
| HttpChunks.SizeRun | dependency/CrowCpp/include/crow/http_parser_merged.h:1769-1820 | Hexadecimal digits that pass the overflow test give the chunk size exactly, below 2^64-1. |
| HttpChunks.SizeExactly | dependency/CrowCpp/include/crow/http_parser_merged.h:1769-1820 | For every text of hexadecimal digits within the header limit: it is accepted as a chunk size if and only if its digits before the last stay below the overflow test, then exactly; otherwise the error is an invalid content length. |
| HttpChunks.OneChunkRun | dependency/CrowCpp/include/crow/http_parser_merged.h:1769-1887 | A chunk with extensions and any data, line ends included, is read as exactly its data. |
| HttpChunks.ChunksRun | dependency/CrowCpp/include/crow/http_parser_merged.h:1769-1887 | A sequence of chunks is read as the concatenation of their data. |
| HttpRequests.HeadRun | dependency/CrowCpp/include/crow/http_parser_merged.h:1056-1571 | A list of header lines: the headers with a value are filed in order, the last stays to be filed, and the flags are those of all the lines together. |
| HttpRequests.HeadExactly | dependency/CrowCpp/include/crow/http_parser_merged.h:1573-1767 | Any request line and any header lines: at the empty line the parser holds exactly what they say, and goes on to a body, hands the request over, stops for another protocol or fails as that demands. |
| HttpRequests.UpgradeExactly | dependency/CrowCpp/include/crow/http_parser_merged.h:1694-1731 | A CONNECT request, or one with an Upgrade header, is handed over at the end of its header block and the parser stops exactly there, whatever follows. |
| HttpRequests.TwoFramingsRefused | dependency/CrowCpp/include/crow/http_parser_merged.h:1588-1603 | A request with a Content-Length and a Transfer-Encoding is refused, whatever follows. |
| HttpRequests.OtherEncodingRefused | dependency/CrowCpp/include/crow/http_parser_merged.h:1667-1760 | A request with Transfer-Encoding headers of which none ends with chunked, without Content-Length or Upgrade, is refused, whatever its other headers and whatever follows. |
| HttpRequests.IdentityRequest | dependency/CrowCpp/include/crow/http_parser_merged.h:1573-1767 | With Content-Length n the body is exactly the next n bytes whatever they are; without a length it is empty; then the request is handed over once and the next byte starts a new message. |
| HttpRequests.LastChunkRun | dependency/CrowCpp/include/crow/http_parser_merged.h:1833-1848 | The last chunk and the trailer lines after it end the message; trailers with a value are added to the headers, except the last trailer, which is lost; their bytes stay counted against the limit on the next header block. |
| HttpRequests.ChunkedBodyRun | dependency/CrowCpp/include/crow/http_parser_merged.h:1769-1887 | A chunked body with its trailers (section 4.1 of RFC 7230) is read as the data of its chunks and completes the message once. |
| HttpRequests.RequestRun | dependency/CrowCpp/include/crow/http_parser_merged.h:690-1926 | The parser inverts the writing of a request: whatever the header lines and however the body is framed, exactly that request is handed over, once, and the next byte starts a new message. |
| HttpRequests.StreamRun | dependency/CrowCpp/include/crow/http_parser_merged.h:690-1926 | A connection carrying any sequence of requests hands over exactly these requests, in order. |
| HttpInvariants.StepGood | dependency/CrowCpp/include/crow/http_parser_merged.h:758-1891 | One byte keeps the invariant on state, matching index, flags and header count, and on the length: below 2^64-1 in every body state and, once a Content-Length has been seen, in every header state; the only assert that can fail is the one on an undecided Connection value, and it fails exactly there. |
| HttpInvariants.StepDecided | dependency/CrowCpp/include/crow/http_parser_merged.h:1307-1322 | A byte other than NUL never leaves a Connection value undecided. |
| HttpInvariants.RunSound | dependency/CrowCpp/include/crow/http_parser_merged.h:690-1926 | No input without a NUL byte makes an assert of the parser fail, from the initial state, over the whole run. |
| HttpInvariants.AssertsExactly | dependency/CrowCpp/include/crow/http_parser_merged.h:1385-1389 | For every input: the invariant holds after every accepted prefix, and an assert fails if and only if some byte meets a Connection value that is still undecided. |
| HttpHistory.StateTold | dependency/CrowCpp/include/crow/http_parser_merged.h:758-1891 | One byte keeps the account of the text read so far: the length is exactly what the headers declare, or what is left of it, and the marker of a Connection value that is undecided stands exactly for a value of NUL bytes and spaces. |
| HttpHistory.RunTold | dependency/CrowCpp/include/crow/http_parser_merged.h:690-1926 | For every input whatever: in every state that is reached the length is exactly the declared one, or what is left of it, and every request handed over without a transfer coding has a body of exactly the declared length, or none if none was declared. |
| HttpHistory.AssertsOnText | dependency/CrowCpp/include/crow/http_parser_merged.h:1307-1389 | For every input, in terms of its text: an assert fails if and only if some byte that may stand in a header meets a Connection or Proxy-Connection header whose value so far holds only NUL bytes and spaces. |
| HttpLimits.NulValueAsserts | dependency/CrowCpp/include/crow/http_parser_merged.h:1307-1389 | The assert does fail: any Connection header whose value starts with NUL followed by a byte that may stand in a header. |
| HttpLimits.LongNameRefused | dependency/CrowCpp/include/crow/http_parser_merged.h:1189-1202 | A header whose name only begins with Transfer-Encoding makes a request without other framing headers fail with an invalid transfer encoding. |
| HttpLimits.LengthLineExactly | dependency/CrowCpp/include/crow/http_parser_merged.h:1293-1428 | Any Content-Length line, from any state between two lines: which of the three errors it meets, a value without a first digit, a second Content-Length, a value that is no number or too long, or else exactly which length it leaves. |
| HttpLimits.LimitExactly | dependency/CrowCpp/include/crow/http_parser_merged.h:294-301 | In every reachable state of a header block the next byte overflows the limit if and only if 81920 bytes have been counted. |
| HttpExecute.HttpParser.CountHeader | dependency/CrowCpp/include/crow/http_parser_merged.h:294-301 | Counting header bytes fails exactly when the total exceeds the limit. |
| HttpExecute.HttpParser.SkipName | dependency/CrowCpp/include/crow/http_parser_merged.h:1118-1125 | The inner loop over an ordinary header name may look ahead in the buffer: where it stops, the parser is in the state the bytes passed over lead to one by one. |
| HttpExecute.HttpParser.ScanName | dependency/CrowCpp/include/crow/http_parser_merged.h:1108-1219 | The name loop stops at the first byte that is no token character, in the state that reading its bytes one by one leads to. |
| HttpExecute.HttpParser.ScanField | dependency/CrowCpp/include/crow/http_parser_merged.h:1106-1248 | The bulk loop over a header name, its mark and its late counting do what the bytes do one by one; the mark stays set only if the buffer ended inside the name. |
| HttpExecute.HttpParser.SkipValue | dependency/CrowCpp/include/crow/http_parser_merged.h:1364-1383 | The inner loop over an ordinary header value, which jumps over one unexamined byte when it reaches its bound: never unsound, because the count has overflowed by then. |
| HttpExecute.HttpParser.ScanValueBytes | dependency/CrowCpp/include/crow/http_parser_merged.h:1334-1504 | The value loop over all matching states refines the step by byte. |
| HttpExecute.HttpParser.ScanValue | dependency/CrowCpp/include/crow/http_parser_merged.h:1334-1509 | A header value up to its line end or the end of the buffer, counted only afterwards, ends like its bytes one by one; a value that is both too long and malformed fails either way. |
| HttpExecute.HttpParser.ReadIdentity | dependency/CrowCpp/include/crow/http_parser_merged.h:1721-1756 | Taking as much of the body as the buffer holds, with a mark, does what its bytes do one by one, and completes the message exactly when the length is used up. |
| HttpExecute.HttpParser.ReadChunk | dependency/CrowCpp/include/crow/http_parser_merged.h:1850-1871 | The same for the data of a chunk. |
| HttpExecute.HttpParser.FlushBefore | dependency/CrowCpp/include/crow/http_parser_merged.h:245-304 | The callback for a marked piece hands over exactly the bytes from the mark on. |
| HttpExecute.HttpParser.DataCallbacks | dependency/CrowCpp/include/crow/http_parser_merged.h:732-758 | Whatever mark is set before a byte and whatever the byte causes: the message together with the bytes still owed is what the callbacks of the byte alone would have made it. |
| HttpExecute.HttpParser.OneByte | dependency/CrowCpp/include/crow/http_parser_merged.h:758-1104 | Every other state: the switch with its marks and callbacks does what the step function says, and at most one mark is set afterwards. |
| HttpExecute.HttpParser.Turn | dependency/CrowCpp/include/crow/http_parser_merged.h:758-1893 | One turn of the main loop, however many bytes it takes, does what these bytes do one by one. |
| HttpExecute.HttpParser.Execute | dependency/CrowCpp/include/crow/http_parser_merged.h:690-1926 | A whole buffer: state, request under construction, delivered requests, error and number of bytes used are those of reading its bytes one by one, with the special cases of the empty buffer and of an earlier error. |
| HttpExecute.HttpParser.Feed | dependency/CrowCpp/include/crow/parser.h:104-122 | Feeding a buffer reports success exactly when the bytes are accepted and, after an upgrade, all of them were used. |
| HttpExecute.HttpParser.FeedAll | dependency/CrowCpp/include/crow/parser.h:20-122 | Split independence: cutting the bytes into any non-empty buffers errs exactly when the whole errs, and delivers the same requests. |
| HttpConnection.Receive | dependency/CrowCpp/include/crow/parser.h:20-122 | However the bytes of any sequence of well-formed requests are cut into reads, exactly these requests are handed over, in order. |
| RoutePatterns.MatchKey | dependency/CrowCpp/include/crow/routing.h:885-900 | Comparing a compressed node's key with the URL in one go is matching its characters one by one. |
| RouteHoles.StringExactly | dependency/CrowCpp/include/crow/routing.h:848-868 | A string hole takes n characters if and only if they are at least one, hold no slash, and a slash or the end follows; it fails if and only if a slash comes first. |
| RouteHoles.PathExactly | dependency/CrowCpp/include/crow/routing.h:871-881 | A path hole takes everything that is left. |
| RouteHoles.IntExactly | dependency/CrowCpp/include/crow/routing.h:785-805 | A signed hole takes n characters with value v if and only if they are an optional sign and all the digits that follow, and v is their value and has 64 bits. |
| RouteHoles.UintExactly | dependency/CrowCpp/include/crow/routing.h:808-825 | The same for an unsigned hole, which takes no minus sign. |
| RouteHoles.IntWritten | dependency/CrowCpp/include/crow/routing.h:785-805 | Every signed integer of 64 bits is taken as it is printed, up to the first character that is no digit. |
| RouteHoles.UintWritten | dependency/CrowCpp/include/crow/routing.h:808-825 | Every unsigned integer of 64 bits is taken as it is printed, up to the first character that is no digit. |
| RouteHoles.DoubleExactly | dependency/CrowCpp/include/crow/routing.h:828-845 | A floating-point hole takes what the conversion of the platform takes, and is tried if and only if a digit, a sign or a point comes first. |
| RouteHoles.TokensExactly | dependency/CrowCpp/include/crow/routing.h:914-985 | For every text and every list of tokens: the text is a pattern with these tokens if and only if it writes them, each hole under one of its seven names. |
| RouteHoles.CapturesInOrder | dependency/CrowCpp/include/crow/routing.h:746-906 | Captures stand in the order of their holes, each among those of its type, behind what was there before. |
| RouteHoles.StringRoute | dependency/CrowCpp/include/crow/routing.h:746-906 | A literal prefix followed by a string hole matches a URL if and only if the URL is that prefix and a non-empty text without a slash, which is the capture. |
| RouteHoles.PathRoute | dependency/CrowCpp/include/crow/routing.h:746-906 | A literal prefix followed by a path hole matches if and only if anything follows the prefix, and captures it. |
| RouteHoles.IntRoute | dependency/CrowCpp/include/crow/routing.h:746-906 | A literal prefix followed by a signed hole matches and captures v if and only if a number of 64 bits with value v follows. |
| RouteNodes.BestAppend | dependency/CrowCpp/include/crow/routing.h:785-906 | The best of two lists of routes is the better of their best ones, so the search may compare children one after the other. |
| RouteNodes.BestMeans | dependency/CrowCpp/include/crow/routing.h:746-906 | The best route is the matching one with the lowest non-zero rule index, with its captures; it is nothing exactly when no route matches. |
| RouteBuild.WalkUnique | dependency/CrowCpp/include/crow/routing.h:909-992 | Each node of the trie under construction stands for exactly one sequence of tokens. |
| RouteBuild.GrownWalk | dependency/CrowCpp/include/crow/routing.h:936-985 | Adding a node adds exactly one token sequence to those the trie knows. |
| RouteBuild.RuleSet | dependency/CrowCpp/include/crow/routing.h:989-991 | Setting a rule at the end of a path changes the rule of that token sequence and of no other. |
| RouteRules.RoutesAreRules | dependency/CrowCpp/include/crow/routing.h:746-992 | The routes that the search ranges over are exactly the token sequences that have a non-zero rule. |
| RouteCompress.MergedShape | dependency/CrowCpp/include/crow/routing.h:676-682 | Merging a node with its only child keeps the trie well formed and frees exactly that child. |
| RouteCompress.MergedMeans | dependency/CrowCpp/include/crow/routing.h:640-682 | Merging a node with its only child leaves the routes below every node unchanged. |
| RouteCompress.CompressedKept | dependency/CrowCpp/include/crow/routing.h:672-693 | A later merge does not undo the compression of another part. |
| RouteTrie.EnterMatches | dependency/CrowCpp/include/crow/routing.h:785-900 | Entering a node, by a typed hole or by its key, consumes what its tokens match and captures the same values. |
| RouteTrie.BranchBest | dependency/CrowCpp/include/crow/routing.h:785-906 | The best route through a child is the best route below it, from the position behind what it matches. |
| RouteTrie.MeansRules | dependency/CrowCpp/include/crow/routing.h:909-992 | A trie means a set of patterns exactly when each has its rule and nothing else has one. |
| RouteTrie.Finish | dependency/CrowCpp/include/crow/routing.h:986-992 | Adding a pattern ends in a trie that means the old patterns and the new one. |
| RouteTrie.BestOfAdded | dependency/CrowCpp/include/crow/routing.h:746-906 | The best route of a trie is the lowest rule among the added patterns that match the URL, with the captures of that pattern. |
| RouteTrie.RoutingParams.PushBack | dependency/CrowCpp/include/crow/routing.h:797-799 | A capture goes to the end of the vector of its type. |
| RouteTrie.RoutingParams.PopBack | dependency/CrowCpp/include/crow/routing.h:802-804 | Popping by the type of the hole undoes the push. |
| RouteTrie.Trie.constructor | dependency/CrowCpp/include/crow/routing.h:655-658 | A new trie knows no pattern. |
| RouteTrie.Trie.Descend | dependency/CrowCpp/include/crow/routing.h:936-985 | One token further: an existing child is reused, otherwise one is created, and no rule changes. |
| RouteTrie.Trie.Add | dependency/CrowCpp/include/crow/routing.h:909-992 | Adding throws exactly when the same token sequence already has a non-zero rule, leaving the trie as it was; otherwise the trie means the old patterns and the new one. |
| RouteTrie.Trie.FindFrom | dependency/CrowCpp/include/crow/routing.h:746-906 | The backtracking search finds the best route below a node and leaves the shared parameter vectors as it found them. |
| RouteTrie.Trie.FindChild | dependency/CrowCpp/include/crow/routing.h:785-900 | Trying one child finds the best route through it and restores the parameters. |
| RouteTrie.Trie.Find | dependency/CrowCpp/include/crow/routing.h:746-906 | Trie correctness: 0 exactly when no added pattern matches, otherwise the lowest rule among the matching patterns with that pattern's captures. |
| RouteTrie.Trie.OptimizeNode | dependency/CrowCpp/include/crow/routing.h:672-693 | Radix compression in place terminates, keeps the routes below every node, touches nothing outside its subtree and leaves it fully compressed. |
| RouteTrie.Trie.Optimize | dependency/CrowCpp/include/crow/routing.h:662-668 | Compressing the whole trie changes no route, so no result of a search. |
| RouteTrie.Trie.Validate | dependency/CrowCpp/include/crow/routing.h:738-743 | Validation accepts exactly the tries whose head is simple, and then compresses them. |
| RouteTable.SlashIsToken | dependency/CrowCpp/include/crow/routing.h:1193-1200 | Removing a trailing slash from a pattern removes exactly its last token. |
| RouteTable.AddedFrom | dependency/CrowCpp/include/crow/routing.h:1191-1212 | Every sequence in the trie comes from a rule, or from a rule with a trailing slash, which also enters the slash-free pattern as a redirect. |
| RouteTable.AddedAll | dependency/CrowCpp/include/crow/routing.h:1191-1212 | Conversely every rule, and every redirect, is in the trie. |
| RouteTable.FoundIsRight | dependency/CrowCpp/include/crow/routing.h:1505-1555 | The found index leads to a redirect if the URL matches a directory pattern without its slash, otherwise to the first matching rule. |
| RouteTable.MethodRoutes.AddRule | dependency/CrowCpp/include/crow/routing.h:1191-1212 | Registering a rule throws exactly when it clashes with an earlier one. |
| RouteTable.MethodRoutes.Dispatch | dependency/CrowCpp/include/crow/routing.h:1500-1556 | Dispatch agrees with scanning all the rules of the method. |
| RouteTable.MethodRoutes.Validate | dependency/CrowCpp/include/crow/routing.h:1277-1300 | Validation changes no rule, and accepts exactly the tables whose head node is simple. |
| RouteRecords.RecordRoute | HttpServer.cpp:78-80 | The rule of the records, a literal prefix and a string hole, from its text to the dispatch, the trie compressed or not: exactly the URLs that go on with a non-empty text without a slash are handled, with that text; all others are not found. |
| RouteRecords.DirectoryRoute | dependency/CrowCpp/include/crow/routing.h:1193-1200 | A rule that ends in a slash: the URL with the slash is handled, the one without is redirected unless it is empty, and nothing else is found. |
| JsonSyntax.CodeExactly | dependency/CrowCpp/include/crow/json.h:443-465 | For every code below 2^16, its four hexadecimal digits in either case: an independent UTF-8 reader gets the code back from what is unescaped. |
| JsonSyntax.UnitsExactly | dependency/CrowCpp/include/crow/json.h:425-487 | Any sequence of plain bytes, short escapes and codes, as it is written, is well escaped, and unescaping yields exactly what these mean, codes by way of the UTF-8 reader. |
| JsonSyntax.NumberExactly | dependency/CrowCpp/include/crow/json.h:946-1070 | A number is read up to a position if and only if the text up to there has the form the reader accepts, spelled out digit by digit, and no byte of a number follows. |
| JsonLayouts.TextExactly | dependency/CrowCpp/include/crow/json.h:906-1202 | The reader from the outside, for every text and every value: it returns the value if and only if the text writes it, with any white space, escapes and spelling of numbers, and with at most 5000 containers nested in each other; a NUL byte ends the text. |
| JsonLayouts.TextShown | dependency/CrowCpp/include/crow/json.h:906-1202 | In particular a text that writes a value is read as that value if its nesting fits and refused if not. |
| JsonDump.EscapeRoundTrip | dependency/CrowCpp/include/crow/json.h:39-71 | Escaping any string, NUL and control characters included, yields printable text without a bare quote, and unescaping gives the string back. |
| JsonDump.DumpShows | dependency/CrowCpp/include/crow/json.h:1762-1887 | Whatever is printed writes its value in the grammar that the reader accepts, without white space. |
| Basics.IntTextBack | dependency/CrowCpp/include/crow/json.h:1831-1838 | The printed digits of an integer have its value. |
| JsonText.AppendEscaped | dependency/CrowCpp/include/crow/json.h:39-71 | The escaping loop appends exactly the escaped string. |
| JsonText.WriteUtf8 | dependency/CrowCpp/include/crow/json.h:443-465 | A code point of up to four hexadecimal digits is written as its UTF-8 form, and nothing else in the buffer changes. |
| JsonText.WriteUnit | dependency/CrowCpp/include/crow/json.h:431-479 | One unit is unescaped in place; the write cursor does not pass the read cursor. |
| JsonText.UnescapeText | dependency/CrowCpp/include/crow/json.h:425-487 | Unescaping in place yields the unescaped text, stops at the end, never writes ahead of what it has read, and touches nothing outside the string. |
| JsonText.UnescapeView | dependency/CrowCpp/include/crow/json.h:425-487 | A string token is unescaped when it is first looked at and not a second time. |
| JsonGrammar.StringIsEscaped | dependency/CrowCpp/include/crow/json.h:846-904 | Every string that the reader accepts is well escaped, so unescaping it cannot run past its end. |
| JsonDump.Write | dependency/CrowCpp/include/crow/json.h:1762-1887 | The recursive printer appends exactly the text of the value. |
| JsonDump.RoundTrip | dependency/CrowCpp/include/crow/json.h:1190-1202 | Reading a printed tree gives that tree if it has at most 5000 nested containers, and fails if it has more. |
| JsonReader.Vector.EmplaceBack | dependency/CrowCpp/include/crow/json.h:667-686 | Appending to the growable array with its 16-bit count of spare places adds the value at the end and loses none. |
| JsonReader.DenotesKept | dependency/CrowCpp/include/crow/json.h:229-242 | A parsed value keeps its meaning as long as its own part of the buffer is unchanged. |
| JsonReader.DenotesWider | dependency/CrowCpp/include/crow/json.h:229-242 | Widening the part of the buffer that a value may depend on keeps its meaning. |
| JsonParser.Parser.constructor | dependency/CrowCpp/include/crow/json.h:825-832 | A parser over a NUL-terminated copy of the text starts at its beginning. |
| JsonParser.Parser.WsSkip | dependency/CrowCpp/include/crow/json.h:840-844 | Skipping white space stops at the first other character. |
| JsonParser.Parser.ScanString | dependency/CrowCpp/include/crow/json.h:846-900 | The scan of a string stops at its closing quote or fails exactly where the grammar does. |
| JsonParser.Parser.DecodeString | dependency/CrowCpp/include/crow/json.h:846-904 | A string token is cut out of the buffer by two marks and denotes its unescaped text; nothing before it changes. |
| JsonParser.Parser.DecodeNumber | dependency/CrowCpp/include/crow/json.h:946-1070 | The number automaton accepts exactly the numbers of the grammar, as one token. |
| JsonParser.Parser.Literal | dependency/CrowCpp/include/crow/json.h:1087-1118 | null, true and false are accepted exactly where they stand in full. |
| JsonParser.Parser.DecodeValue | dependency/CrowCpp/include/crow/json.h:1073-1125 | Recursive descent over the mutable buffer accepts exactly what the grammar accepts, and the result denotes the same tree although the buffer was rewritten on the way. |
| JsonParser.Parser.DecodeList | dependency/CrowCpp/include/crow/json.h:906-944 | The same for a list, with its depth limit. |
| JsonParser.Parser.DecodeItems | dependency/CrowCpp/include/crow/json.h:917-944 | The loop over list items: earlier items keep their meaning while later ones are cut out of the buffer. |
| JsonParser.Parser.DecodeObject | dependency/CrowCpp/include/crow/json.h:1127-1188 | The same for an object. |
| JsonParser.Parser.DecodeKey | dependency/CrowCpp/include/crow/json.h:1144-1164 | A key and its colon; the key is unescaped at once. |
| JsonParser.Parser.DecodeMember | dependency/CrowCpp/include/crow/json.h:1144-1174 | One member denotes its key and its value. |
| JsonParser.Parser.DecodeMembers | dependency/CrowCpp/include/crow/json.h:1139-1188 | The loop over members keeps all earlier members intact. |
| JsonRoundTrip.Load | dependency/CrowCpp/include/crow/json.h:1190-1215 | Loading fails exactly when the grammar refuses the text; otherwise the returned token denotes the parsed tree. |
| JsonRoundTrip.FromRead | dependency/CrowCpp/include/crow/json.h:1342-1392 | Building a tree from tokens unescapes strings in place and yields the tree they denote, without disturbing the tokens outside. |
| JsonRoundTrip.ReadBack | dependency/CrowCpp/include/crow/json.h:1342-1378 | The tree of a printed value is the value, integers compared by value. |
| JsonRoundTrip.WholeWay | dependency/CrowCpp/include/crow/json.h:1204-1215 | Print, load and rebuild: the same tree for at most 5000 nested containers, a failure beyond. |
| MustacheParser.Find | dependency/CrowCpp/include/crow/mustache.h:412-430 | Searching for a doubled brace finds the first one. |
| MustacheParser.Trim | dependency/CrowCpp/include/crow/mustache.h:441-444 | Trimming a tag removes exactly the spaces at both ends; a tag of spaces only is trimmed as the code does it. |
| MustacheParser.ReadTag | dependency/CrowCpp/include/crow/mustache.h:425-558 | One tag: its kind, name, end and errors are those of the text, with one character or two as its closing brace. |
| MustacheParser.KindExactly | dependency/CrowCpp/include/crow/mustache.h:437-505 | The character behind the opening braces decides what a tag is: hash, slash, circumflex, exclamation mark, greater, brace or ampersand; anything else is an escaped tag. |
| MustacheParser.LeafAdded | dependency/CrowCpp/include/crow/mustache.h:477-512 | A tag without a body extends the innermost open block. |
| MustacheParser.BlockOpened | dependency/CrowCpp/include/crow/mustache.h:439-447 | An opening tag starts a new innermost block. |
| MustacheParser.BlockClosed | dependency/CrowCpp/include/crow/mustache.h:448-467 | A closing tag with the innermost name closes that block and links both ends to each other. |
| MustacheParser.Compile | dependency/CrowCpp/include/crow/mustache.h:406-560 | Compiling gives fragments and actions that tile the template, with open and close positions correctly nested and names equal; a template is refused exactly for a tag that is malformed or does not close the innermost block, at that tag. |
| MustacheRender.StandsNested | dependency/CrowCpp/include/crow/mustache.h:406-560 | The flat action list of a block tree has correctly nested jump positions. |
| MustacheRender.NodeMeans | dependency/CrowCpp/include/crow/mustache.h:199-341 | Running the flat list over a node is rendering the node and then running the rest. |
| MustacheRender.InlineMeans | dependency/CrowCpp/include/crow/mustache.h:240-266 | A section over one value is run by falling into its body and popping at its close: the same as rendering the body with that value on the stack. |
| MustacheRender.EachMeans | dependency/CrowCpp/include/crow/mustache.h:300-318 | A section over a list renders its body once for each item. |
| MustacheRender.TemplateMeans | dependency/CrowCpp/include/crow/mustache.h:199-341 | The interpreter of the flat action list means recursion over the block tree, and leaves the context stack as it found it. |
| MustacheRender.InsideMeans | dependency/CrowCpp/include/crow/mustache.h:173-197 | A tag in a section is seen as standing in an object block if and only if the value on top of the stack is an object and the backward scan, which looks through as many open sections as inverted sections were closed before the tag, finds one. |
| MustacheRender.OutsideMeans | dependency/CrowCpp/include/crow/mustache.h:173-197 | A tag outside of all sections stands in no object block. |
| MustacheEscape.EscapeRead | dependency/CrowCpp/include/crow/mustache.h:153-171 | For every text: reading the character references of the escaped text, named ones from the table of HTML and numeric ones by their value, gives the text back, and the escaped text holds none of the dangerous characters. |
| MustacheEscape.TagExactly | dependency/CrowCpp/include/crow/mustache.h:211-292 | What a value puts into the output: a string as itself or, escaped, harmless text that reads back as it, a number in decimal, a missing value nothing; every other value throws. |
| MustacheEscape.LeafExactly | dependency/CrowCpp/include/crow/mustache.h:211-292 | A tag on its own puts out the text in front of it and then, for a string, harmless text that reads back as the string, or the string itself if asked for unescaped; a partial what its template gives; a comment nothing. |
| MustacheEscape.SectionExactly | dependency/CrowCpp/include/crow/mustache.h:218-318 | A section shows nothing for a missing value, false, null and the empty list, its body once per item of a list, and otherwise once with the value on the stack; an inverted section shows its body exactly where a section shows nothing. |
| MustacheEscape.EachExactly | dependency/CrowCpp/include/crow/mustache.h:300-318 | The body of a block for a list of contexts is rendered for each in turn, the first one first, on top of the stack. |
| MustacheEscape.Rejoined | dependency/CrowCpp/include/crow/mustache.h:406-560 | The texts that are put out between the tags, and the tags, make up the template in order. |
| MustacheInterpreter.Renderer.IsTagInsideObjectBlock | dependency/CrowCpp/include/crow/mustache.h:173-197 | The backward scan computes what its specification says, for every position. |
| MustacheInterpreter.Renderer.Escape | dependency/CrowCpp/include/crow/mustache.h:153-171 | The escaping loop appends the HTML-escaped text. |
| MustacheInterpreter.Renderer.RenderLeaf | dependency/CrowCpp/include/crow/mustache.h:211-292 | A tag without a body appends its text or throws, as its kind and its value say. |
| MustacheInterpreter.Renderer.RenderItems | dependency/CrowCpp/include/crow/mustache.h:300-318 | The loop over list items pushes, renders and pops, and threads the stack through. |
| MustacheInterpreter.Renderer.Step | dependency/CrowCpp/include/crow/mustache.h:204-338 | One turn of the loop keeps the meaning of what is still to be run. |
| MustacheInterpreter.Renderer.RenderInternal | dependency/CrowCpp/include/crow/mustache.h:199-342 | The loop with its jumps computes the meaning of the action list. |
| MustacheInterpreter.Renderer.Render | dependency/CrowCpp/include/crow/mustache.h:199-342 | Rendering outputs what recursion over the block tree outputs and restores the stack. |
| MustacheInterpreter.RenderBody | dependency/CrowCpp/include/crow/mustache.h:361-560 | From the text of any template to its output: compile, run, and obtain what recursion over the tree of the template gives. |
| WebSocketFrame.MaskedBack | dependency/CrowCpp/include/crow/websocket.h:484-489 | Unmasking inverts masking (section 5.3 of RFC 6455), for every mask and payload. |
| WebSocketFrame.WireMasked | dependency/CrowCpp/include/crow/websocket.h:484-489 | The payload of a masked frame on the wire, stated byte by byte as bit vectors, is what masking computes. |
| WebSocketFrame.HelloFrame | dependency/CrowCpp/include/crow/websocket.h:250-489 | The masked frame of section 5.7 of RFC 6455 that carries Hello has the eleven bytes given there. |
| WebSocketFrame.NetworkOrder | dependency/CrowCpp/include/crow/websocket.h:321-370 | In network order the first byte is the highest, for lengths of 16 and of 32 bits. |
| WebSocketFrame.NetworkOrder64 | dependency/CrowCpp/include/crow/websocket.h:358-370 | The same for lengths of 64 bits. |
| WebSocketFrame.Read16 | dependency/CrowCpp/include/crow/websocket.h:321-335 | Two bytes received in network order and swapped are the number sent. |
| WebSocketFrame.Read64 | dependency/CrowCpp/include/crow/websocket.h:358-370 | The same for eight bytes. |
| WebSocketFrame.HeaderMeans | dependency/CrowCpp/include/crow/websocket.h:200-221 | Every header that is built, followed by the payload, is the wire form of an unmasked final frame with that opcode and that length (section 5.2 of RFC 6455). |
| WebSocketConnection.MiniBits | dependency/CrowCpp/include/crow/websocket.h:466-478 | FIN, opcode, mask bit and short length are recovered from the two header bytes. |
| WebSocketConnection.Connection.Unmask | dependency/CrowCpp/include/crow/websocket.h:484-489 | The loop over the payload unmasks it in place: as bit vectors, byte i is the byte before exclusive or byte i modulo 4 of the mask. |
| WebSocketConnection.Connection.HandleData | dependency/CrowCpp/include/crow/websocket.h:491-527 | A data frame appends to the message and delivers it exactly when it is final, with the right kind. |
| WebSocketConnection.Connection.HandleControl | dependency/CrowCpp/include/crow/websocket.h:528-560 | Close, ping and pong do what the protocol says and leave the message under construction alone. |
| WebSocketConnection.Connection.HandleFragment | dependency/CrowCpp/include/crow/websocket.h:482-562 | A whole frame: unmask, act on its opcode, clear the payload. |
| WebSocketConnection.Connection.Close | dependency/CrowCpp/include/crow/websocket.h:176-192 | Closing sends one close frame with the message. |
| WebSocketConnection.Connection.ReadMiniHeader | dependency/CrowCpp/include/crow/websocket.h:255-318 | The two header bytes decide which length form follows. |
| WebSocketConnection.Connection.ReadLength | dependency/CrowCpp/include/crow/websocket.h:321-390 | The longer length forms give the length of the payload. |
| WebSocketConnection.Connection.ReadMask | dependency/CrowCpp/include/crow/websocket.h:392-429 | The mask is read exactly when the mask bit is set. |
| WebSocketConnection.Connection.ReadPayload | dependency/CrowCpp/include/crow/websocket.h:430-458 | Any number of payload bytes at a time; the frame is acted on exactly when the last has arrived. |
| WebSocketConnection.Connection.DoRead | dependency/CrowCpp/include/crow/websocket.h:250-464 | One read event keeps the reader in step with the frame it is reading and always makes progress. |
| WebSocketConnection.Connection.ReadAll | dependency/CrowCpp/include/crow/websocket.h:250-464 | A stream of frames read in pieces of any size is acted on frame by frame, in order, up to a close. |
| WebSocketMessages.PartsHandled | dependency/CrowCpp/include/crow/websocket.h:482-562 | While a fragmented message is being received, the parts so far are kept in order and control frames between them are answered without disturbing it. |
| WebSocketMessages.MessagesHandled | dependency/CrowCpp/include/crow/websocket.h:482-562 | Any sequence of fragmented messages with control frames in between delivers exactly these messages, in order, with the right kind, answers every ping (section 5.4 of RFC 6455) and changes nothing else. |
| WebSocketMessages.CloseHandled | dependency/CrowCpp/include/crow/websocket.h:528-548 | A close frame is answered with a close frame of the same payload unless this side has sent one, in which case the connection closes; the close handler is told once. |
| WebSocketMessages.TrafficHandled | dependency/CrowCpp/include/crow/websocket.h:482-562 | Any well-formed traffic, that is whole messages, then perhaps the beginning of one more, control frames anywhere, also at the end, and perhaps a close: exactly the whole messages are delivered, the begun one is kept, every ping is answered and the close is acted on. |
| WebSocketMessages.Receive | dependency/CrowCpp/include/crow/websocket.h:250-562 | The same from the bytes of the stream, whatever the read sizes: what is delivered, every byte that is written back, and what the close handler is told. |
| WebSocketMessages.SentFrames | dependency/CrowCpp/include/crow/websocket.h:151-174 | What the sender writes for a list of messages is the stream of their frames. |
| WebSocketMessages.Exchange | dependency/CrowCpp/include/crow/websocket.h:151-562 | Messages written by one side and read by the other arrive unchanged, in order. |
| EngineCounts.SumPut | DataEngine.cpp:18-21 | The sum over a table changes by the difference at the one key that is set. |
| EngineCounts.Conservation | DataEngine.cpp:4-63 | In every interleaving of the atomic steps of gets and sets: the reads per key plus the misses equal the global reads plus the gets caught between their two increments, and likewise for the writes, modulo 2^64. |
| EngineCounts.ExecDistinct | DataEngine.cpp:18-23 | In every interleaving the gets of a key return different read numbers. |
| EngineCounts.ReadNumbersDiffer | DataEngine.cpp:18-23 | As long as a key has been read fewer than 2^64 times, no two gets of it report the same number of reads. |
| EngineSteps.StepKeeps | DataEngine.cpp:4-63 | Every atomic step keeps the engine's invariant: sets exclude everything else, each value is the last one set, each write count is the number of sets since loading. |
| EngineSteps.ExecKeeps | DataEngine.cpp:4-63 | In every interleaving each get returns a value together with the number of sets that led to exactly that value. |
| EngineSteps.LockExactly | DataEngine.cpp:4-63 | Gets share the lock and sets have it alone: a get may begin if and only if no set is at work, a set if and only if nothing is. |
| EngineSteps.Progress | DataEngine.cpp:4-63 | No operation gets stuck: each step of its own brings it nearer to its end, which comes after at most four, and steps of other threads do not move it. |
| EngineServer.DataEngine.Get | DataEngine.cpp:4-24 | A get alone performs exactly its atomic steps and returns what they read. |
| EngineServer.DataEngine.Set | DataEngine.cpp:44-63 | A set alone performs exactly its atomic steps, and stores the value under its key and no other. |
| EngineServer.DataEngine.InitialSet | DataEngine.cpp:26-42 | Loading a pair gives the engine that starts with that pair loaded. |
| EngineServer.DataEngine.StoreData | BackgroundWorker.cpp:98-121 | Whatever the enumeration order, the saved pairs are exactly the values of the engine, each once. |
| EngineServer.InitialLoad | BackgroundWorker.cpp:78-96 | Loading a file leaves the engine with its pairs, the last one for a repeated name. |
| EngineServer.LoadedStays | DataEngine.cpp:4-63 | No interleaving loses a loaded key. |
| EngineServer.SavedValues | main.cpp:35-60 | After any interleaving that has come to rest, the saved file has for each key the last value set, or the loaded one if it was never set. |
| EngineServer.ServeAndSave | main.cpp:35-60 | Load, any requests, final save, reload: the file and the reloaded engine hold exactly the last value of every key. |
| EngineServer.Restart | main.cpp:35-60 | Load, any interleaving of gets and sets that has come to rest, final save in any order of the records, reload: the reloaded engine holds exactly the loaded and the set keys, each with the last value set or else the loaded one. |
| EngineServer.StatisticsPrinter.PrintStatistics | StatisticsPrinter.cpp:6-18 | The printed differences, added modulo 2^64 to the totals printed before, give the totals printed now. |
| EngineServer.RunWorker | BackgroundWorker.cpp:11-63 | The background loop ends exactly when it is told to, the differences it prints sum modulo 2^64 to the last totals, and it saves exactly in the turns at least 14 seconds after the save before. |
| Sha1.RotateAgrees | dependency/CrowCpp/include/crow/TinySHA1.hpp:35-37 | The rotation by shifts and exclusive or is rotation. |
| Sha1.FunctionAgrees | dependency/CrowCpp/include/crow/TinySHA1.hpp:158-175 | The round functions are those of section 4.1.1 of FIPS 180-4, although written differently. |
| Sha1.InitialIs | dependency/CrowCpp/include/crow/TinySHA1.hpp:48-53 | The initial hash value of section 5.3.1 of FIPS 180-4, told by the pattern of its bytes. |
| Sha1.ConstantIs | dependency/CrowCpp/include/crow/TinySHA1.hpp:158-175 | The four round constants are 2^30 times the square roots of 2, 3, 5 and 10, rounded down. |
| Sha1.WordIs | dependency/CrowCpp/include/crow/TinySHA1.hpp:142-148 | A word of the schedule holds its four bytes, the first one highest. |
| Sha1.AddIs | dependency/CrowCpp/include/crow/TinySHA1.hpp:176-188 | Words are added modulo 2^32. |
| Sha1.LowLengthIs | dependency/CrowCpp/include/crow/TinySHA1.hpp:96-103 | The length at the end of the padding is its value modulo 2^32, the first byte highest. |
| Sha1.PaddedSize | dependency/CrowCpp/include/crow/TinySHA1.hpp:81-103 | Padding fills the last block exactly. |
| Sha1.SHA1.Expand | dependency/CrowCpp/include/crow/TinySHA1.hpp:140-151 | The loop over the 80 words computes the message schedule of section 6.1.2 of FIPS 180-4. |
| Sha1.SHA1.ProcessBlock | dependency/CrowCpp/include/crow/TinySHA1.hpp:140-188 | The 80 rounds compress the block into the digest. |
| Sha1.SHA1.ProcessByte | dependency/CrowCpp/include/crow/TinySHA1.hpp:58-66 | After each byte the digest is that of the whole blocks fed so far and the buffer holds the rest. |
| Sha1.SHA1.ProcessBytes | dependency/CrowCpp/include/crow/TinySHA1.hpp:67-80 | Feeding a piece is feeding its bytes. |
| Sha1.SHA1.ZeroUntil | dependency/CrowCpp/include/crow/TinySHA1.hpp:84-95 | Zero bytes are fed until the block index is reached, wrapping at most once. |
| Sha1.SHA1.FillBlock | dependency/CrowCpp/include/crow/TinySHA1.hpp:83-95 | The byte 0x80 and as many zero bytes as padding needs bring the block to its last eight bytes. |
| Sha1.SHA1.GetDigest | dependency/CrowCpp/include/crow/TinySHA1.hpp:81-107 | The digest is the compression folded over the message padded with a 32-bit length. |
| Sha1.PaddingStandard | dependency/CrowCpp/include/crow/TinySHA1.hpp:96-103 | Writing only 32 bits of the length is the padding of section 5.1.1 of FIPS 180-4 if and only if the message is shorter than 2^29 bytes. |
| Sha1.DigestOf | dependency/CrowCpp/include/crow/TinySHA1.hpp:58-107 | However a message below 2^29 bytes is cut into pieces, the digest is the hash of the standard padding of the whole. |
| Filename.SanitizeSpecialFile | dependency/CrowCpp/include/crow/utility.h:671-690 | A device name at a position, ended by the end, a dot or a separator, is erased into one replacement character; otherwise nothing changes. |
| Filename.SpecialFirst | dependency/CrowCpp/include/crow/utility.h:692-722 | The switch on the first character of a component tries every name that can match there. |
| Filename.SanitizeComponent | dependency/CrowCpp/include/crow/utility.h:692-722 | After treating a component it is no device name and not dot-dot, and only that component changed. |
| Filename.SpecialReplaced | dependency/CrowCpp/include/crow/utility.h:724-738 | Replacing a character never creates a device name. |
| Filename.SanitizeFilename | dependency/CrowCpp/include/crow/utility.h:660-741 | The result is clean (at most 255 bytes, no forbidden byte, no leading slash, no device name or dot-dot as a component); a name is left alone if and only if it is clean already; and where no device name occurs each byte is kept or replaced on its own. |
| Filename.SanitizeTwice | dependency/CrowCpp/include/crow/utility.h:660-741 | A second pass changes nothing. |
| FilenameRules.CleanExactly | dependency/CrowCpp/include/crow/utility.h:660-741 | What clean means, told without the code: by character codes, and by the stems of the components in upper case against the list of reserved names. |
| FilenameRules.Sanitize | dependency/CrowCpp/include/crow/utility.h:660-741 | The sanitiser in these terms: its result is a clean name, the name itself if and only if that is clean already; without reserved names, bad bytes and a leading slash become underscores and nothing else changes but the length. |
| Multipart.WriteMessage | dependency/CrowCpp/include/crow/multipart.h:92-123 | The dumping loops write the message. |
| MultipartForm.DumpExactly | dependency/CrowCpp/include/crow/multipart.h:92-123 | What is dumped is the multipart body of section 5.1.1 of RFC 2046 with these parts, written out independently. |
| Multipart.FirstPair | dependency/CrowCpp/include/crow/multipart.h:218-228 | A two-character separator behind a text without it is found right behind that text. |
| Multipart.FirstEmptyLine | dependency/CrowCpp/include/crow/multipart.h:196-198 | The empty line behind the header lines is the first one, whatever the body contains. |
| Multipart.BoundaryBehind | dependency/CrowCpp/include/crow/multipart.h:170-180 | The boundary behind a part is the first one in the rest of the message. |
| Multipart.ParseParams | dependency/CrowCpp/include/crow/multipart.h:231-246 | Parameters are read back, quotes removed. |
| Multipart.ParseHeader | dependency/CrowCpp/include/crow/multipart.h:209-248 | A header line is read back with its parameters. |
| Multipart.ParseHead | dependency/CrowCpp/include/crow/multipart.h:205-249 | The header lines of a part are read back in order. |
| Multipart.ParseSection | dependency/CrowCpp/include/crow/multipart.h:192-203 | A part is read back with its headers and its body. |
| Multipart.PartName | dependency/CrowCpp/include/crow/multipart.h:182-184 | A part is entered under the name parameter of its Content-Disposition header, found up to the case of the header name. |
| MultipartForm.DispositionExactly | dependency/CrowCpp/include/crow/multipart.h:182-184 | The header that names a part is the one called content-disposition in any case. |
| MultipartForm.NameExactly | dependency/CrowCpp/include/crow/multipart.h:182-184 | A part has a name if and only if the header called content-disposition has it as its parameter called name. |
| Multipart.ParseBody | dependency/CrowCpp/include/crow/multipart.h:167-190 | Parsing a dumped message terminates and yields its parts, in order, and the table that holds each part under its name. |
| Multipart.RoundTrip | dependency/CrowCpp/include/crow/multipart.h:92-190 | Dump and parse give back the parts and their table, for every boundary without line ends that occurs in no part, and parts that name themselves. |
| Base64.Base64Encode | dependency/CrowCpp/include/crow/utility.h:523-557 | The loop over groups of three writes the encoding of section 4 of RFC 4648, with the given alphabet and padding. |
| Base64.LetterIs | dependency/CrowCpp/include/crow/utility.h:523-565 | The letters are those of tables 1 and 2 of RFC 4648. |
| Base64.SextetsAre | dependency/CrowCpp/include/crow/utility.h:523-557 | The four letters of a group stand for its 24 bits cut into sixes. |
| Base64.EncodedMarks | dependency/CrowCpp/include/crow/utility.h:541-555 | Padding marks stand exactly at the end of an encoding that needs them. |
| Base64.SizeBack | dependency/CrowCpp/include/crow/utility.h:606-624 | The size computed from the text, padded or not, is that of the original. |
| Base64.Base64Decode | dependency/CrowCpp/include/crow/utility.h:574-647 | The decoding loop yields the decoded bytes and never reads past the text. |
| Base64.DecodeEncoded | dependency/CrowCpp/include/crow/utility.h:574-647 | Decoding inverts encoding for every byte string and both alphabets. |
| Base64.RoundTrip | dependency/CrowCpp/include/crow/utility.h:523-647 | The whole way, with the padding kept and with it stripped. |
| TaskTimer.TaskTimer.Schedule | dependency/CrowCpp/include/crow/task_timer.h:51-76 | A new task gets an identifier that no task in the table has, also after the reset to 0. |
| TaskTimer.TaskTimer.Cancel | dependency/CrowCpp/include/crow/task_timer.h:38-42 | Cancelling removes that task and no other. |
| TaskTimer.TaskTimer.ProcessTasks | dependency/CrowCpp/include/crow/task_timer.h:88-108 | A tick runs exactly the tasks whose deadline has passed, in the order of the table, and removes exactly these; the identifiers restart only when the table is empty. With the invariant that every method keeps: each task runs at most once and never after it was cancelled. |
| TaskTimer.DueSerials | dependency/CrowCpp/include/crow/task_timer.h:93-101 | What a tick runs has not run before and has not been cancelled. |

## Left out

- HttpExecute.HttpParser.Execute: for a failing buffer the number of bytes reported as used is not stated.
- HttpExecute.HttpParser.FeedAll: the error of a failing run is that of the bytes one by one up to `FailsWith`, because the source counts header bytes late; whether it fails is exact.
- HttpRequests.RequestRun: a header line with a name that merely begins with Transfer-Encoding, a line folded over several lines, and a line feed alone as a line end are not among the lines it writes; what the parser does about them is stated on its own (`HttpLimits.LongNameRefused`, `HttpFolding`), as it is for requests with an Upgrade header (`HttpRequests.UpgradeExactly`).
- HttpFolding.FoldedLine: what is left when a list of transfer codings goes on behind a comma and a line end is not stated.
- HttpMessage.Request: `qs_point` and the `url` cut out of `raw_url` (the start mark is not restored between buffers), lenient modes, what follows an Upgrade or CONNECT request, and messages delimited by the end of the connection, which a request parser never reaches.
- HTTP parsing of responses, status lines and the parser's pause interface are not part of this model.
- RouteTrie.Trie: nodes are positions in an array instead of heap pointers, freed nodes are marked; blueprints, catch-all rules and WebSocket rules are not modelled.
- RouteTrie.Trie.Add: patterns must be well formed (each `<` begins a known hole and no NUL occurs); on others the loop of the source does not end or reads past the string.
- RouteTable.MethodRoutes.Dispatch: the search through other methods that tells 404 from 405, the error handlers and the construction of responses are left out; a table holds fewer than 65536 rules, the range of the rule index.
- RoutePatterns.Scan: the floating-point prefix is an arbitrary function (`strtod`).
- JsonDump.RoundTrip: no floating-point numbers and no function values; an object is the sequence of its members in the order in which the table is enumerated.
- JsonRoundTrip.Load: texts are shorter than 1 GiB, so that the item counters of the source cannot overflow; copying of tokens, `has` and lookup by key are left out, with one live view per token.
- JsonRoundTrip.FromRead: numbers that are no integers of 64 bits give no tree.
- MustacheParser.Compile: standalone-line trimming and changes of the delimiters are left out (the latter is reported as a failure of its own); a closing tag without an open block, on which the source is undefined, is a failure, and a block left open, which the source keeps with jump position 0, is reported as such.
- MustacheInterpreter.Renderer.Render: no lambdas and no indentation; partials and the lookup of names are arbitrary functions.
- WebSocketConnection.Connection.DoRead: the header read delivers both its bytes at once, as the source takes for granted; socket errors, the handshake, the maximum payload and the queue of outgoing writes are left out.
- EngineServer.DataEngine.StoreData: a file is a sequence of name/value pairs that reads back as written; the JSON library and the file system are not part of this model, nor is the content of a periodic save taken while sets are running.
- EngineServer.DataEngine.InitialSet: loading happens before any other thread exists, so the shared lock it takes while writing is not an issue.
- Sha1.SHA1: the conversion of the digest to bytes is left out.
- Multipart.ParseBody: only messages that `dump` writes; the loop of the source does not end on some others. Each part has one Content-Disposition header with a name parameter, without which the source reads behind its table of parameters. Headers and parameters, unordered tables in the source, are sequences in an arbitrary order of enumeration; look-ups in the table of parts, message headers and the boundary in the Content-Type header are left out.
- Base64.Base64Decode: texts of fewer than two characters, on which the source reads before the text.
- Filename.SanitizeFilename: the replacement character is the default `_`.
- TaskTimer.TaskTimer: identifiers do not wrap around, and callbacks leave the table alone.
- Sockets, threads, connection lifetime, the application object, middleware, cookies, CORS, query strings, URL decoding, MIME types, compression, logging, the Python client and the compile-time helpers would only add easy members or are external.
