/** The request parser as a transition function: what one byte does to the parser's
    own fields, and which callbacks it causes.  This is the per-byte meaning that the
    buffer-driven loop of module HttpExecute is proved against. */
module HttpControl {
  import opened Basics
  import opened HttpChars
  import opened HttpMethods

  /** Limit on the bytes of a header block or of a chunk-size line. */
  const MAX_HEADER_SIZE: nat := 80 * 1024
  /** All 64 bits set: "no Content-Length seen". */
  const NO_LENGTH: uint64 := 0xFFFF_FFFF_FFFF_FFFF
  const TWO_64: nat := 0x1_0000_0000_0000_0000
  type uint64 = n: nat | n < 0x1_0000_0000_0000_0000

  const CONNECTION := "connection"
  const PROXY_CONNECTION := "proxy-connection"
  const CONTENT_LENGTH := "content-length"
  const TRANSFER_ENCODING := "transfer-encoding"
  const UPGRADE := "upgrade"
  const CHUNKED := "chunked"
  const KEEP_ALIVE := "keep-alive"
  const CLOSE := "close"

  datatype State =
    | Dead
    | StartReq
    | ReqMethod
    | SpacesBeforeUrl
    | Schema | SchemaSlash | SchemaSlashSlash
    | ServerStart | Server | ServerWithAt
    | Path | QueryStringStart | QueryString
    | HttpStart | HttpH | HttpHT | HttpHTT | HttpHTTP | HttpI | HttpIC
    | HttpMajor | HttpDot | HttpMinor | HttpEnd | LineAlmostDone
    | FieldStart | Field
    | DiscardWs | DiscardWsAlmostDone | DiscardLws
    | Value | ValueLws | HeaderAlmostDone
    | ChunkSizeStart | ChunkSize | ChunkParameters | ChunkSizeAlmostDone
    | HeadersAlmostDone
    | ChunkData | ChunkDataAlmostDone | ChunkDataDone
    | BodyIdentity

  datatype HeaderState =
    | General
    | C | CO | CON
    | MatchingConnection | MatchingProxyConnection | MatchingContentLength
    | MatchingTransferEncoding | MatchingUpgrade
    | ConnectionName | ContentLengthName | ContentLengthNum | ContentLengthWs
    | TransferEncodingName | UpgradeName
    | TokenStart | MatchingChunked | EncodingToken
    | MatchingKeepAlive | MatchingClose
    | ChunkedValue | KeepAliveValue | CloseValue

  datatype Flags = Flags(
    chunked: bool, keepAlive: bool, close: bool, trailing: bool, upgrade: bool, contentLength: bool)

  const NO_FLAGS := Flags(false, false, false, false, false, false)

  datatype Errno =
    | HeaderOverflow | ClosedConnection | InvalidVersion | InvalidMethod | InvalidUrl
    | LfExpected | InvalidHeaderToken | InvalidContentLength | UnexpectedContentLength
    | InvalidChunkSize | InvalidConstant | Strict | InvalidTransferEncoding | InvalidEofState
    /** An `assert` of the source failed. */
    | AssertionFailed

  /** The fields of `struct http_parser` (strict headers, no lenient modes). */
  datatype Control = Control(
    state: State,
    headerState: HeaderState,
    index: nat,
    flags: Flags,
    usesTransferEncoding: bool,
    nread: nat,
    contentLength: uint64,
    verb: Method,
    major: nat,
    minor: nat,
    upgrade: bool)

  const INITIAL := Control(StartReq, General, 0, NO_FLAGS, false, 0, 0, Delete, 0, 0, false)

  datatype Data = NoData | UrlData | FieldData | ValueData | BodyData

  /** Callbacks caused by one byte, in the order of the fields.  `data` says which data
      callback the byte belongs to; `emptyValue` is a value callback of length zero. */
  datatype Effect = Effect(begin: bool, emptyValue: bool, data: Data, headersComplete: bool, complete: bool)

  const QUIET := Effect(false, false, NoData, false, false)

  datatype StepResult =
    | Next(control: Control, effect: Effect)
    /** The message asks for another protocol: the parser returns at once. */
    | Halt(control: Control, effect: Effect)
    | Err(errno: Errno)

  predicate IsUrlState(s: State) {
    s.Schema? || s.SchemaSlash? || s.SchemaSlashSlash? || s.ServerStart? || s.Server? || s.ServerWithAt? ||
    s.Path? || s.QueryStringStart? || s.QueryString?
  }

  predicate IsVersionState(s: State) {
    s.HttpStart? || s.HttpH? || s.HttpHT? || s.HttpHTT? || s.HttpHTTP? || s.HttpI? || s.HttpIC? ||
    s.HttpMajor? || s.HttpDot? || s.HttpMinor? || s.HttpEnd? || s.LineAlmostDone?
  }

  predicate IsHeaderState(s: State) {
    s.FieldStart? || s.Field? || s.DiscardWs? || s.DiscardWsAlmostDone? || s.DiscardLws? ||
    s.Value? || s.HeaderAlmostDone? || s.ValueLws? || s.HeadersAlmostDone?
  }

  predicate IsChunkLineState(s: State) {
    s.ChunkSizeStart? || s.ChunkSize? || s.ChunkParameters? || s.ChunkSizeAlmostDone?
  }

  predicate IsBodyState(s: State) {
    s.BodyIdentity? || s.ChunkData? || s.ChunkDataAlmostDone? || s.ChunkDataDone? || IsChunkLineState(s)
  }

  function Go(c: Control, s: State): StepResult {
    Next(c.(state := s), QUIET)
  }

  function Emit(c: Control, s: State, d: Data): StepResult {
    Next(c.(state := s), QUIET.(data := d))
  }

  /** How the resting state and the data callback of a step agree: exactly the bytes of a
      URL, of a header name and of a header value leave the parser inside one. */
  predicate Shape(was: Control, r: StepResult) {
    match r
    case Next(c, e) =>
      && (c.nread == was.nread || c.nread == 0)
      && (c.state.Field? <==> e.data.FieldData?)
      && (c.state.Value? <==> e.data.ValueData?)
      && (IsUrlState(c.state) <==> e.data.UrlData?)
      && (e.begin ==> e.data.NoData? && !e.headersComplete && !e.complete)
      && (e.data.BodyData? ==> !e.headersComplete && !e.begin && !e.emptyValue)
      && (e.headersComplete ==> e.data.NoData?)
      && (e.complete ==> e.data.NoData? || e.data.BodyData?)
      && (e.complete ==> c.state.StartReq?)
      && (e.begin ==> was.state.StartReq?)
      && (e.emptyValue || e.headersComplete || e.data.FieldData? || e.data.ValueData? ==> IsHeaderState(was.state))
      && (e.data.BodyData? ==> was.state.BodyIdentity? || was.state.ChunkData?)
      && (e.data.UrlData? ==> was.state.SpacesBeforeUrl? || IsUrlState(was.state))
    case Halt(c, e) =>
      && e.data.NoData? && e.headersComplete && e.complete && !e.begin && c.state.StartReq?
      && IsHeaderState(was.state) && (c.nread == was.nread || c.nread == 0)
    case Err(_) => true
  }

  /** States whose bytes count against MAX_HEADER_SIZE. */
  predicate ParsingHeader(s: State) {
    !(s.ChunkData? || s.ChunkDataAlmostDone? || s.ChunkDataDone? || s.BodyIdentity?)
  }

  // ---------------------------------------------------------------- request line

  /** Next URL state, Dead for a character that cannot stand there. */
  function UrlNext(s: State, ch: char): State {
    if ch in " \r\n\t" || ch as int == 12 then Dead
    else
      if s.SpacesBeforeUrl? then
        if ch == '/' || ch == '*' then Path else if IsAlpha(ch) then Schema else Dead
      else if s.Schema? then
        if IsAlpha(ch) then Schema else if ch == ':' then SchemaSlash else Dead
      else if s.SchemaSlash? then
        if ch == '/' then SchemaSlashSlash else Dead
      else if s.SchemaSlashSlash? then
        if ch == '/' then ServerStart else Dead
      else if s.ServerWithAt? then
        if ch == '@' then Dead else ServerNext(ch)
      else if s.ServerStart? then ServerNext(ch)
      else if s.Server? then ServerNext(ch)
      else if s.Path? then
        if IsUrlChar(ch) then Path else if ch == '?' then QueryStringStart else Dead
      else if s.QueryStringStart? then
        if IsUrlChar(ch) || ch == '?' then QueryString else Dead
      else if s.QueryString? then
        if IsUrlChar(ch) || ch == '?' then QueryString else Dead
      else Dead
  }

  function ServerNext(ch: char): State {
    if ch == '/' then Path
    else if ch == '?' then QueryStringStart
    else if ch == '@' then ServerWithAt
    else if IsUserinfoChar(ch) || ch == '[' || ch == ']' then Server
    else Dead
  }

  function UrlByte(c: Control, from: State, ch: char): (r: StepResult)
    requires c.state.SpacesBeforeUrl? || IsUrlState(c.state)
    ensures Shape(c, r)
  {
    var s := UrlNext(from, ch);
    if s.Dead? then Err(InvalidUrl) else Emit(c, s, UrlData)
  }

  function StepUrl(c: Control, ch: char): (r: StepResult)
    requires c.state.SpacesBeforeUrl? || IsUrlState(c.state)
    ensures Shape(c, r)
  {
    if c.state.SpacesBeforeUrl? then
      if ch == ' ' then Next(c, QUIET)
      else UrlByte(c, if c.verb.Connect? then ServerStart else SpacesBeforeUrl, ch)
    else if c.state.Schema? || c.state.SchemaSlash? || c.state.SchemaSlashSlash? || c.state.ServerStart? then
      if ch == ' ' || ch == CR || ch == LF then Err(InvalidUrl) else UrlByte(c, c.state, ch)
    else if ch == ' ' then Go(c, HttpStart)
    else if ch == CR || ch == LF then
      // no version after the URL: HTTP/0.9, which only knows GET
      if !c.verb.Get? then Err(InvalidVersion)
      else Go(c.(major := 0, minor := 9), if ch == CR then LineAlmostDone else FieldStart)
    else UrlByte(c, c.state, ch)
  }

  /** First byte of a message; on_message_begin also zeroes the version. */
  function StepStart(c: Control, ch: char): (r: StepResult)
    requires c.state.StartReq?
    ensures Shape(c, r)
  {
    if ch == CR || ch == LF then Next(c, QUIET)
    else if !IsAlpha(ch) || FirstGuess(ch).NoMethod? then Err(InvalidMethod)
    else Next(
      c.(state := ReqMethod, flags := NO_FLAGS, usesTransferEncoding := false, contentLength := NO_LENGTH,
         verb := FirstGuess(ch).verb, index := 1, major := 0, minor := 0),
      QUIET.(begin := true))
  }

  function StepMethod(c: Control, ch: char): (r: StepResult)
    requires c.state.ReqMethod?
    ensures Shape(c, r)
  {
    if ch == NUL then Err(InvalidMethod)
    else if ch == ' ' && c.index == |Name(c.verb)| then Go(c.(index := c.index + 1), SpacesBeforeUrl)
    else
      var g := Refine(c.verb, c.index, ch);
      if g.NoMethod? then Err(InvalidMethod) else Next(c.(verb := g.verb, index := c.index + 1), QUIET)
  }

  function Expect(c: Control, ch: char, wanted: char, s: State, e: Errno): StepResult {
    if ch == wanted then Go(c, s) else Err(e)
  }

  function StepVersion(c: Control, ch: char): (r: StepResult)
    requires IsVersionState(c.state)
    ensures Shape(c, r)
  {
    if c.state.HttpStart? then
      if ch == ' ' then Next(c, QUIET)
      else if ch == 'H' then Go(c, HttpH)
      else if ch == 'I' && c.verb.Source? then Go(c, HttpI)
      else Err(InvalidConstant)
    else if c.state.HttpH? then Expect(c, ch, 'T', HttpHT, Strict)
    else if c.state.HttpHT? then Expect(c, ch, 'T', HttpHTT, Strict)
    else if c.state.HttpHTT? then Expect(c, ch, 'P', HttpHTTP, Strict)
    else if c.state.HttpI? then Expect(c, ch, 'C', HttpIC, Strict)
    else if c.state.HttpIC? then Expect(c, ch, 'E', HttpHTTP, Strict)
    else if c.state.HttpHTTP? then Expect(c, ch, '/', HttpMajor, Strict)
    else if c.state.HttpMajor? then
      if IsNum(ch) then Go(c.(major := ch as int - '0' as int), HttpDot) else Err(InvalidVersion)
    else if c.state.HttpDot? then Expect(c, ch, '.', HttpMinor, InvalidVersion)
    else if c.state.HttpMinor? then
      if IsNum(ch) then Go(c.(minor := ch as int - '0' as int), HttpEnd) else Err(InvalidVersion)
    else if c.state.HttpEnd? then
      if ch == CR then Go(c, LineAlmostDone)
      else if ch == LF then Go(c, FieldStart)
      else Err(InvalidVersion)
    else Expect(c, ch, LF, FieldStart, LfExpected)
  }

  // ---------------------------------------------------------------- header block

  /** Progress of matching a header name or a header value. */
  datatype Scan = Scan(kind: HeaderState, index: nat)

  /** One more character against a word: still matching, matched, or `fail`. */
  function Match(h: Scan, t: char, word: string, matched: HeaderState, fail: HeaderState): Scan {
    var i := h.index + 1;
    if i >= |word| || t != word[i] then Scan(fail, i)
    else if i == |word| - 1 then Scan(matched, i)
    else Scan(h.kind, i)
  }

  /** A complete name or value must be followed by nothing but spaces. */
  function OnlySpace(h: Scan, ch: char, fail: HeaderState): Scan {
    if ch != ' ' then h.(kind := fail) else h
  }

  /** Effect of the token character `ch` (lower-cased: `t`) of a header name. */
  function FieldToken(h: Scan, ch: char, t: char): Scan {
    if h.kind.C? then Scan(if t == 'o' then CO else General, h.index + 1)
    else if h.kind.CO? then Scan(if t == 'n' then CON else General, h.index + 1)
    else if h.kind.CON? then
      Scan(if t == 'n' then MatchingConnection else if t == 't' then MatchingContentLength else General, h.index + 1)
    else if h.kind.MatchingConnection? then Match(h, t, CONNECTION, ConnectionName, General)
    else if h.kind.MatchingProxyConnection? then Match(h, t, PROXY_CONNECTION, ConnectionName, General)
    else if h.kind.MatchingContentLength? then Match(h, t, CONTENT_LENGTH, ContentLengthName, General)
    else if h.kind.MatchingTransferEncoding? then Match(h, t, TRANSFER_ENCODING, TransferEncodingName, General)
    else if h.kind.MatchingUpgrade? then Match(h, t, UPGRADE, UpgradeName, General)
    else if h.kind.ConnectionName? || h.kind.ContentLengthName? || h.kind.TransferEncodingName? || h.kind.UpgradeName?
    then OnlySpace(h, ch, General)
    else h
  }

  function WithScan(c: Control, h: Scan): Control {
    c.(headerState := h.kind, index := h.index)
  }

  function ScanOf(c: Control): Scan {
    Scan(c.headerState, c.index)
  }

  /** Reaching the end of "transfer-encoding" is remembered even if the name goes on. */
  function InField(c: Control, ch: char): Control {
    var h := FieldToken(ScanOf(c), ch, Token(ch));
    WithScan(c, h).(usesTransferEncoding := c.usesTransferEncoding || h.kind.TransferEncodingName?)
  }

  function StepField(c: Control, ch: char): (r: StepResult)
    requires c.state.Field?
    ensures Shape(c, r)
  {
    if Token(ch) != NUL then Next(InField(c, ch), QUIET.(data := FieldData))
    else if ch == ':' then Go(c, DiscardWs)
    else Err(InvalidHeaderToken)
  }

  function NameStart(t: char): HeaderState {
    match t
    case 'c' => C
    case 'p' => MatchingProxyConnection
    case 't' => MatchingTransferEncoding
    case 'u' => MatchingUpgrade
    case _ => General
  }

  function StepFieldStart(c: Control, ch: char): (r: StepResult)
    requires IsHeaderState(c.state)
    ensures Shape(c, r)
  {
    if ch == CR then Go(c, HeadersAlmostDone)
    else if ch == LF then EndOfHeaders(c, ch)
    else
      var t := Token(ch);
      if t == NUL then Err(InvalidHeaderToken)
      else Emit(c.(index := 0, headerState := NameStart(t)), Field, FieldData)
  }

  /** First byte of a header value, also the first byte of a folded continuation line. */
  function StepValueStart(c0: Control, ch: char): (r: StepResult)
    requires IsHeaderState(c0.state)
    ensures Shape(c0, r)
  {
    var c := c0.(state := Value, index := 0);
    var l := Lower(ch);
    if c.headerState.UpgradeName? then
      Emit(c.(flags := c.flags.(upgrade := true), headerState := General), Value, ValueData)
    else if c.headerState.TransferEncodingName? then
      Emit(c.(headerState := if l == 'c' then MatchingChunked else EncodingToken), Value, ValueData)
    else if c.headerState.TokenStart? then Emit(c, Value, ValueData)
    else if c.headerState.ContentLengthName? then
      if !IsNum(ch) then Err(InvalidContentLength)
      else if c.flags.contentLength then Err(UnexpectedContentLength)
      else Emit(c.(flags := c.flags.(contentLength := true), contentLength := ch as int - '0' as int,
                   headerState := ContentLengthNum), Value, ValueData)
    else if c.headerState.ContentLengthWs? then Emit(c, Value, ValueData)
    else if c.headerState.ConnectionName? then
      Emit(if l == 'k' then c.(headerState := MatchingKeepAlive)
           else if l == 'c' then c.(headerState := MatchingClose)
           else if l == ' ' || l == '\t' then c
           else c.(headerState := General), Value, ValueData)
    else Emit(c.(headerState := General), Value, ValueData)
  }

  datatype ValueResult = InValue(scan: Scan, contentLength: uint64) | BadValue(errno: Errno)

  /** One more digit of a Content-Length. */
  function ContentLengthDigit(h: Scan, length: uint64, ch: char): ValueResult {
    if ch == ' ' then InValue(h.(kind := ContentLengthWs), length)
    else if !IsNum(ch) then BadValue(InvalidContentLength)
    else if (NO_LENGTH - 10) / 10 < length then BadValue(InvalidContentLength)
    else InValue(h.(kind := ContentLengthNum), (length * 10 + (ch as int - '0' as int)) % TWO_64)
  }

  /** One more byte, not a line end, of a header value. */
  function ValueByte(h: Scan, length: uint64, ch: char): ValueResult {
    if !IsHeaderChar(ch) then BadValue(InvalidHeaderToken)
    else if h.kind.ConnectionName? || h.kind.TransferEncodingName? then BadValue(AssertionFailed)
    else if h.kind.ContentLengthName? then
      if ch == ' ' then InValue(h, length) else ContentLengthDigit(h, length, ch)
    else if h.kind.ContentLengthNum? then ContentLengthDigit(h, length, ch)
    else if h.kind.ContentLengthWs? then
      if ch == ' ' then InValue(h, length) else BadValue(InvalidContentLength)
    else InValue(ValueToken(h, ch, Lower(ch)), length)
  }

  /** Matching inside the values of Transfer-Encoding and Connection. */
  function ValueToken(h: Scan, ch: char, l: char): Scan {
    if h.kind.TokenStart? then
      if l == 'c' then h.(kind := MatchingChunked)
      else if Token(l) != NUL then h.(kind := EncodingToken)
      else if l == ' ' || l == '\t' then h
      else h.(kind := General)
    else if h.kind.MatchingChunked? then Match(h, l, CHUNKED, ChunkedValue, EncodingToken)
    else if h.kind.EncodingToken? then if ch == ',' then Scan(TokenStart, 0) else h
    else if h.kind.MatchingKeepAlive? then Match(h, l, KEEP_ALIVE, KeepAliveValue, General)
    else if h.kind.MatchingClose? then Match(h, l, CLOSE, CloseValue, General)
    else if h.kind.ChunkedValue? then OnlySpace(h, ch, EncodingToken)
    else if h.kind.KeepAliveValue? || h.kind.CloseValue? then OnlySpace(h, ch, General)
    else h.(kind := General)
  }

  function StepValue(c: Control, ch: char): (r: StepResult)
    requires c.state.Value?
    ensures Shape(c, r)
  {
    if ch == CR then Go(c, HeaderAlmostDone)
    else if ch == LF then Go(c, ValueLws)
    else
      var v := ValueByte(ScanOf(c), c.contentLength, ch);
      if v.BadValue? then Err(v.errno)
      else Next(WithScan(c, v.scan).(contentLength := v.contentLength), QUIET.(data := ValueData))
  }

  /** Flags that a finished header leaves behind. */
  function FinishHeader(c: Control): Control {
    if c.headerState.KeepAliveValue? then c.(flags := c.flags.(keepAlive := true))
    else if c.headerState.CloseValue? then c.(flags := c.flags.(close := true))
    else if c.headerState.ChunkedValue? then c.(flags := c.flags.(chunked := true))
    else c
  }

  function StepValueLws(c: Control, ch: char): (r: StepResult)
    requires c.state.ValueLws?
    ensures Shape(c, r)
  {
    if ch == ' ' || ch == '\t' then
      StepValueStart(if c.headerState.ContentLengthNum? then c.(headerState := ContentLengthWs) else c, ch)
    else StepFieldStart(FinishHeader(c), ch)
  }

  function StepDiscardWs(c: Control, ch: char): (r: StepResult)
    requires c.state.DiscardWs?
    ensures Shape(c, r)
  {
    if ch == ' ' || ch == '\t' then Next(c, QUIET)
    else if ch == CR then Go(c, DiscardWsAlmostDone)
    else if ch == LF then Go(c, DiscardLws)
    else StepValueStart(c, ch)
  }

  function StepDiscardLws(c: Control, ch: char): (r: StepResult)
    requires c.state.DiscardLws?
    ensures Shape(c, r)
  {
    if ch == ' ' || ch == '\t' then Go(c, DiscardWs)
    else
      var r := StepFieldStart(c, ch);
      if r.Err? then r else r.(effect := r.effect.(emptyValue := true))
  }

  /** The line feed after the last header line (or after the trailers of a chunked body). */
  function EndOfHeaders(c: Control, ch: char): (r: StepResult)
    requires IsHeaderState(c.state)
    ensures Shape(c, r)
  {
    if ch != LF then Err(Strict)
    else if c.flags.trailing then Next(c.(state := StartReq), QUIET.(complete := true))
    else if c.usesTransferEncoding && c.flags.contentLength then Err(UnexpectedContentLength)
    else BodyStart(c.(upgrade := c.flags.upgrade || c.verb.Connect?))
  }

  /** How the body is delimited. */
  function BodyStart(c0: Control): (r: StepResult)
    requires IsHeaderState(c0.state)
    ensures Shape(c0, r)
  {
    var c := c0.(nread := 0);
    var e := QUIET.(headersComplete := true);
    if c.upgrade then Halt(c.(state := StartReq), e.(complete := true))
    else if c.flags.chunked then Next(c.(state := ChunkSizeStart), e)
    else if c.usesTransferEncoding then Err(InvalidTransferEncoding)
    else if c.contentLength == 0 || c.contentLength == NO_LENGTH then
      Next(c.(state := StartReq), e.(complete := true))
    else Next(c.(state := BodyIdentity), e)
  }

  function StepHeader(c: Control, ch: char): (r: StepResult)
    requires IsHeaderState(c.state)
    ensures Shape(c, r)
  {
    if c.state.FieldStart? then StepFieldStart(c, ch)
    else if c.state.Field? then StepField(c, ch)
    else if c.state.DiscardWs? then StepDiscardWs(c, ch)
    else if c.state.DiscardWsAlmostDone? then Expect(c, ch, LF, DiscardLws, Strict)
    else if c.state.DiscardLws? then StepDiscardLws(c, ch)
    else if c.state.Value? then StepValue(c, ch)
    else if c.state.HeaderAlmostDone? then Expect(c, ch, LF, ValueLws, LfExpected)
    else if c.state.ValueLws? then StepValueLws(c, ch)
    else EndOfHeaders(c, ch)
  }

  // ---------------------------------------------------------------- body

  function StepIdentity(c: Control): (r: StepResult)
    requires c.state.BodyIdentity?
    ensures Shape(c, r)
  {
    if c.contentLength == 0 || c.contentLength == NO_LENGTH then Err(AssertionFailed)
    else if c.contentLength == 1 then
      Next(c.(contentLength := 0, state := StartReq), QUIET.(data := BodyData, complete := true))
    else Emit(c.(contentLength := c.contentLength - 1), BodyIdentity, BodyData)
  }

  /** The chunk-size line: digits, optional parameters, line end. */
  function StepChunkLine(c: Control, ch: char): (r: StepResult)
    requires IsChunkLineState(c.state)
    ensures Shape(c, r)
  {
    if !c.flags.chunked then Err(AssertionFailed)
    else
      if c.state.ChunkSizeStart? then
        if c.nread != 1 then Err(AssertionFailed)
        else if Unhex(ch) == -1 then Err(InvalidChunkSize)
        else Go(c.(contentLength := Unhex(ch)), ChunkSize)
      else if c.state.ChunkSize? then
        if ch == CR then Go(c, ChunkSizeAlmostDone)
        else if Unhex(ch) == -1 then
          if ch == ';' || ch == ' ' then Go(c, ChunkParameters) else Err(InvalidChunkSize)
        else if (NO_LENGTH - 16) / 16 < c.contentLength then Err(InvalidContentLength)
        else Next(c.(contentLength := (c.contentLength * 16 + Unhex(ch)) % TWO_64), QUIET)
      else if c.state.ChunkParameters? then
        if ch == CR then Go(c, ChunkSizeAlmostDone) else Next(c, QUIET)
      else
        if ch != LF then Err(Strict)
        else if c.contentLength == 0 then
          Go(c.(nread := 0, flags := c.flags.(trailing := true)), FieldStart)
        else Go(c.(nread := 0), ChunkData)
  }

  /** The data of a chunk and the line end after it. */
  function StepChunkData(c: Control, ch: char): (r: StepResult)
    requires c.state.ChunkData? || c.state.ChunkDataAlmostDone? || c.state.ChunkDataDone?
    ensures Shape(c, r)
  {
    if !c.flags.chunked then Err(AssertionFailed)
    else
      if c.state.ChunkData? then
        if c.contentLength == 0 || c.contentLength == NO_LENGTH then Err(AssertionFailed)
        else Emit(c.(contentLength := c.contentLength - 1),
                  if c.contentLength == 1 then ChunkDataAlmostDone else ChunkData, BodyData)
      else if c.state.ChunkDataAlmostDone? then
        if c.contentLength != 0 then Err(AssertionFailed)
        else Expect(c, ch, CR, ChunkDataDone, Strict)
      else Expect(c.(nread := 0), ch, LF, ChunkSizeStart, Strict)
  }

  function StepBody(c: Control, ch: char): (r: StepResult)
    requires IsBodyState(c.state)
    ensures Shape(c, r)
  {
    if c.state.BodyIdentity? then StepIdentity(c)
    else if IsChunkLineState(c.state) then StepChunkLine(c, ch)
    else StepChunkData(c, ch)
  }

  /** The switch on the state. */
  function StepState(c: Control, ch: char): (r: StepResult)
    ensures Shape(c, r)
  {
    if c.state.Dead? then
      if ch == CR || ch == LF then Next(c, QUIET) else Err(ClosedConnection)
    else if c.state.StartReq? then StepStart(c, ch)
    else if c.state.ReqMethod? then StepMethod(c, ch)
    else if c.state.SpacesBeforeUrl? || IsUrlState(c.state) then StepUrl(c, ch)
    else if IsVersionState(c.state) then StepVersion(c, ch)
    else if IsHeaderState(c.state) then StepHeader(c, ch)
    else StepBody(c, ch)
  }

  /** One byte: count it if it belongs to a header, then switch. */
  function Step(c: Control, ch: char): (r: StepResult)
    ensures Shape(if ParsingHeader(c.state) then c.(nread := c.nread + 1) else c, r)
    ensures r.Next? && c.nread <= MAX_HEADER_SIZE ==> r.control.nread <= MAX_HEADER_SIZE
  {
    if !ParsingHeader(c.state) then StepState(c, ch)
    else if c.nread + 1 > MAX_HEADER_SIZE then Err(HeaderOverflow)
    else StepState(c.(nread := c.nread + 1), ch)
  }
}
