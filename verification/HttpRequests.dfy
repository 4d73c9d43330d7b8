/** Whole requests: the parser inverts the writing of a request, whatever its header lines and
    however its body is framed, and the next byte starts a new message. */
module HttpRequests {
  import opened Basics
  import opened HttpChars
  import opened HttpMethods
  import opened HttpControl
  import opened HttpMessage
  import opened HttpSteps
  import opened HttpSyntax
  import HttpStartLines
  import opened HttpCodings
  import opened HttpNames
  import opened HttpValues
  import opened HttpHeaders
  import opened HttpChunks

  datatype Line = Line(header: HeaderLine, kind: LineKind)

  function HeadText(lines: seq<Line>): string {
    if lines == [] then ""
    else HeadText(lines[..|lines| - 1]) + LineText(lines[|lines| - 1].header)
  }

  function Pair(l: Line): (string, string) {
    (l.header.name, l.header.value)
  }

  /** The headers filed when another name follows: those with a value. */
  function Filed(lines: seq<Line>): seq<(string, string)> {
    if lines == [] then []
    else
      var k := |lines| - 1;
      Filed(lines[..k]) + if lines[k].header.value == "" then [] else [Pair(lines[k])]
  }

  /** All but the last line. */
  function Front(lines: seq<Line>): seq<Line> {
    if lines == [] then [] else lines[..|lines| - 1]
  }

  /** The headers that reach the handler: those with a value, and the last one. */
  function HeadersOf(lines: seq<Line>): seq<(string, string)> {
    Filed(Front(lines)) + if lines == [] then [] else [Pair(lines[|lines| - 1])]
  }

  predicate AllLines(lines: seq<Line>) {
    forall i :: 0 <= i < |lines| ==> IsLine(lines[i].header, lines[i].kind)
  }

  predicate Has(lines: seq<Line>, k: LineKind) {
    exists i :: 0 <= i < |lines| && lines[i].kind == k
  }

  /** At most one Content-Length line. */
  predicate OneLength(lines: seq<Line>) {
    forall i, j :: 0 <= i < j < |lines| && lines[i].kind.LengthLine? ==> !lines[j].kind.LengthLine?
  }

  /** The declared length; NO_LENGTH without a Content-Length line. */
  function DeclaredLength(lines: seq<Line>): nat {
    if lines == [] then NO_LENGTH
    else
      var h := lines[|lines| - 1];
      if h.kind.LengthLine? then DecimalValue(Bare(h.header.value)) else DeclaredLength(lines[..|lines| - 1])
  }

  lemma {:induction false} DeclaredFits(lines: seq<Line>)
    requires AllLines(lines)
    ensures DeclaredLength(lines) <= NO_LENGTH
    ensures Has(lines, LengthLine) <==> DeclaredLength(lines) < NO_LENGTH
  {
    if lines != [] {
      var k := |lines| - 1;
      DeclaredFits(lines[..k]);
      if lines[k].kind.LengthLine? {
        LengthPadded(lines[k].header.value);
      } else if Has(lines, LengthLine) {
        var i :| 0 <= i < |lines| && lines[i].kind == LengthLine;
        assert lines[..k][i].kind == LengthLine;
      }
    }
  }

  /** The flags once the lines `lines` have been read after `f` had been set. */
  function Raised(f: Flags, lines: seq<Line>): Flags {
    f.(chunked := f.chunked || Has(lines, ChunkedLine), keepAlive := f.keepAlive || Has(lines, KeepAliveLine),
       close := f.close || Has(lines, CloseLine), upgrade := f.upgrade || Has(lines, UpgradeLine),
       contentLength := f.contentLength || Has(lines, LengthLine))
  }

  /** What the header lines `lines` leave in the fields that matter for the body and the
      connection, once the last of them is finished. */
  ghost predicate HeadFacts(c: Control, c0: Control, lines: seq<Line>) {
    && AtLineStart(c)
    && c.nread == c0.nread + |HeadText(lines)|
    && (c.verb, c.major, c.minor, c.upgrade) == (c0.verb, c0.major, c0.minor, c0.upgrade)
    && (c0.contentLength == NO_LENGTH ==> c.contentLength == DeclaredLength(lines))
    && Settle(c).usesTransferEncoding ==
       (c0.usesTransferEncoding || Has(lines, ChunkedLine) || Has(lines, OtherEncoding))
    && Settle(c).flags == Raised(c0.flags, lines)
  }

  /** A parser that has just read the request line. */
  predicate Fresh(c: Control) {
    c.state.FieldStart? && c.flags == NO_FLAGS && !c.usesTransferEncoding && c.contentLength == NO_LENGTH
  }

  lemma HasSnoc(lines: seq<Line>, h: Line, k: LineKind)
    ensures Has(lines + [h], k) <==> Has(lines, k) || h.kind == k
  {
    if Has(lines, k) {
      var i :| 0 <= i < |lines| && lines[i].kind == k;
      assert (lines + [h])[i].kind == k;
    }
    if h.kind == k {
      assert (lines + [h])[|lines|].kind == k;
    }
  }

  /** What a line of kind `k` leaves in the fields, once it is finished. */
  predicate LineFacts(c: Control, d: Control, h: HeaderLine, k: LineKind) {
    var f := Settle(c).flags;
    && AtLineStart(d) && d.nread == c.nread + |LineText(h)|
    && (d.verb, d.major, d.minor, d.upgrade) == (c.verb, c.major, c.minor, c.upgrade)
    && d.contentLength == (if k.LengthLine? then DecimalValue(Bare(h.value)) else c.contentLength)
    && Settle(d).usesTransferEncoding == (Settle(c).usesTransferEncoding || OnEncoding(k))
    && Settle(d).flags ==
       f.(chunked := f.chunked || k.ChunkedLine?, keepAlive := f.keepAlive || k.KeepAliveLine?,
          close := f.close || k.CloseLine?, upgrade := f.upgrade || k.UpgradeLine?,
          contentLength := f.contentLength || k.LengthLine?)
  }

  lemma ConnectionSettled(c: Control, h: HeaderLine, k: LineKind)
    requires AtLineStart(c) && IsLine(h, k) && OnConnection(k)
    ensures LineFacts(c, AfterLine(c, h, k), h, k)
  {
    hide LineText, DecimalValue, ValueFold, Bare, IsWord;
    ConnectionValue(h.value, Settle(c).contentLength);
  }

  lemma EncodingSettled(c: Control, h: HeaderLine, k: LineKind)
    requires AtLineStart(c) && IsLine(h, k) && OnEncoding(k)
    ensures LineFacts(c, AfterLine(c, h, k), h, k)
  {
    hide LineText, DecimalValue, ValueFold, Bare, EndsChunked;
    EncodingExactly(h.value, Settle(c).contentLength);
  }

  lemma SettledAfter(c: Control, h: HeaderLine, k: LineKind)
    requires AtLineStart(c) && IsLine(h, k)
    ensures LineFacts(c, AfterLine(c, h, k), h, k)
  {
    hide LineText, DecimalValue, ValueFold, Bare, IsLine;
    if OnConnection(k) {
      ConnectionSettled(c, h, k);
    } else if OnEncoding(k) {
      EncodingSettled(c, h, k);
    } else if k.EmptyLine? {
      assert h.value == "" by {
        NoValue(h);
      }
    }
  }

  lemma FactsSnoc(c: Control, c0: Control, lines: seq<Line>, h: Line)
    requires HeadFacts(c, c0, lines) && IsLine(h.header, h.kind)
    ensures HeadFacts(AfterLine(c, h.header, h.kind), c0, lines + [h])
  {
    hide Has, IsLine, AfterLine, Settle;
    HasSnoc(lines, h, ChunkedLine);
    HasSnoc(lines, h, OtherEncoding);
    HasSnoc(lines, h, KeepAliveLine);
    HasSnoc(lines, h, CloseLine);
    HasSnoc(lines, h, LengthLine);
    HasSnoc(lines, h, UpgradeLine);
    SettledAfter(c, h.header, h.kind);
    assert (lines + [h])[..|lines|] == lines;
  }

  /** The request under construction after header lines: the last is still to be filed. */
  function WithLines(m: Message, lines: seq<Line>): Message {
    if lines == [] then m
    else
      var (name, value) := Pair(lines[|lines| - 1]);
      m.(headers := m.headers + Filed(Front(lines)), field := name, value := value)
  }

  /** Header lines, or the trailer lines of a chunked body, are read one after the other. */
  lemma {:induction false} HeadRun(p: Parser, lines: seq<Line>)
    requires p.control.state.FieldStart? && !p.control.flags.contentLength && AllLines(lines) && OneLength(lines)
    requires p.message.value == "" && !p.message.inField
    requires p.control.nread + |HeadText(lines)| <= MAX_HEADER_SIZE
    ensures var r := Run(p, HeadText(lines));
            && r.More? && HeadFacts(r.parser.control, p.control, lines)
            && Pend(r.parser) == WithLines(p.message, lines) && r.parser.delivered == p.delivered
  {
    hide Run, AfterLine, IsLine, OnField, OnValue;
    if lines == [] {
      RunEmpty(p, HeadText(lines));
    } else {
      var k := |lines| - 1;
      var h := lines[k];
      HeadRun(p, lines[..k]);
      var q := Run(p, HeadText(lines[..k])).parser;
      assert h.kind.LengthLine? ==> !Has(lines[..k], LengthLine);
      LineRun(q, h.header, h.kind);
      RunJoin(p, HeadText(lines[..k]), LineText(h.header));
      FactsSnoc(q.control, p.control, lines[..k], h);
      assert lines[..k] + [h] == lines;
      FileLine(p.message, lines);
    }
  }

  lemma FileLine(m: Message, lines: seq<Line>)
    requires |lines| > 0 && m.value == "" && !m.inField
    ensures var (name, value) := Pair(lines[|lines| - 1]);
            OnValue(OnField(WithLines(m, lines[..|lines| - 1]), name), value) == WithLines(m, lines)
  {
    var init := lines[..|lines| - 1];
    if init != [] {
      assert Front(lines) == init;
      var l := init[|init| - 1];
      assert Filed(init) == Filed(Front(init)) + if l.header.value == "" then [] else [Pair(l)];
    }
  }

  // ---------------------------------------------------------------- request line

  /** A request line as it is usually written. */
  function StartLine(verb: Method, url: string, major: nat, minor: nat): string
    requires major < 10 && minor < 10
  {
    Name(verb) + " " + url + " HTTP/" + [(48 + major) as char, '.', (48 + minor) as char] + "\r\n"
  }

  lemma UsualLine(verb: Method, url: string, major: nat, minor: nat) returns (b: HttpStartLines.Parts)
    requires Target(verb.Connect?, url) && major < 10 && minor < 10
    ensures b.url == url && HttpStartLines.LineOf(StartLine(verb, url, major, minor), verb, b, major, minor)
  {
    hide Name, Target, HttpStartLines.WithMinor;
    var v := "HTTP/" + [(48 + major) as char, '.', (48 + minor) as char];
    UsualVersion(verb, major, minor);
    b := HttpStartLines.Parts(" ", url, " ", v + [CR] + [LF]);
    assert HttpStartLines.Front(v + [CR]) == v;
    assert HttpStartLines.Front(b.version) == v + [CR];
    assert StartLine(verb, url, major, minor) == HttpStartLines.Text(verb, b);
  }

  lemma UsualVersion(verb: Method, major: nat, minor: nat)
    requires major < 10 && minor < 10
    ensures HttpStartLines.WithMinor(verb, "HTTP/" + [(48 + major) as char, '.', (48 + minor) as char], major, minor)
  {
    var slash := "HTTP" + ['/'];
    var dot := slash + [(48 + major) as char] + ['.'];
    var v := dot + [(48 + minor) as char];
    assert HttpStartLines.Front(slash) == "HTTP";
    assert HttpStartLines.Front(slash + [(48 + major) as char]) == slash;
    assert HttpStartLines.Front(dot) == slash + [(48 + major) as char];
    assert HttpStartLines.Front(v) == dot;
    assert v == "HTTP/" + [(48 + major) as char, '.', (48 + minor) as char];
  }

  lemma StartLineRun(p: Parser, verb: Method, url: string, major: nat, minor: nat)
    requires p.control.state.StartReq? && Target(verb.Connect?, url) && major < 10 && minor < 10
    requires p.control.nread + |StartLine(verb, url, major, minor)| <= MAX_HEADER_SIZE
    ensures var r := Run(p, StartLine(verb, url, major, minor));
            && r.More? && Fresh(r.parser.control)
            && (r.parser.control.verb, r.parser.control.major, r.parser.control.minor) == (verb, major, minor)
            && r.parser.control.nread == p.control.nread + |StartLine(verb, url, major, minor)|
            && r.parser.message == BLANK.(rawUrl := url) && r.parser.delivered == p.delivered
  {
    hide Run, Name, StartLine, Target, HttpStartLines.LineOf;
    var b := UsualLine(verb, url, major, minor);
    HttpStartLines.LineTaken(p, StartLine(verb, url, major, minor), verb, b, major, minor);
  }

  // ---------------------------------------------------------------- end of the header block

  lemma SettleKept(c: Control)
    ensures var d := Settle(c);
            (d.verb, d.major, d.minor, d.upgrade, d.contentLength) ==
                (c.verb, c.major, c.minor, c.upgrade, c.contentLength)
  {
  }

  lemma CrFeed(p: Parser)
    requires AtLineStart(p.control) && p.control.nread + 1 <= MAX_HEADER_SIZE
    ensures Feed1(p, CR) ==
            More(Parser(Settle(p.control).(state := HeadersAlmostDone, nread := p.control.nread + 1), Pend(p),
                        p.delivered))
  {
    CrStep(p.control.(nread := p.control.nread + 1));
    FeedOf(p, CR);
  }

  lemma CrStep(c: Control)
    requires AtLineStart(c)
    ensures StepState(c, CR) ==
            Next(Settle(c).(state := HeadersAlmostDone), QUIET.(emptyValue := c.state.DiscardLws?))
  {
  }

  /** The fields and the request once the header block is complete. */
  function HeadersDone(p: Parser): Parser {
    var c := p.control.(nread := 0, upgrade := p.control.flags.upgrade || p.control.verb.Connect?);
    p.(control := c, message := OnHeadersComplete(p.message, c))
  }

  /** The request is handed over and the next byte starts a new one. */
  function Completed(p: Parser): Parser {
    Parser(p.control.(state := StartReq), p.message, p.delivered + [ToRequest(p.message, p.control)])
  }

  /** What follows the header block `q`, which ended after `used` bytes: an error, another protocol, or a
      body delimited as the header says. */
  function HeadEnd(q: Parser, used: nat): Outcome {
    var c := q.control;
    if c.usesTransferEncoding && c.flags.contentLength then Failed(UnexpectedContentLength, q.delivered)
    else if c.upgrade then Upgraded(used, Completed(q).delivered)
    else if c.flags.chunked then More(q.(control := c.(state := ChunkSizeStart)))
    else if c.usesTransferEncoding then Failed(InvalidTransferEncoding, q.delivered)
    else if c.contentLength == 0 || c.contentLength == NO_LENGTH then More(Completed(q))
    else More(q.(control := c.(state := BodyIdentity)))
  }

  /** The last line feed of the header block. */
  lemma LfFeed(p: Parser)
    requires p.control.state.HeadersAlmostDone? && p.control.nread + 1 <= MAX_HEADER_SIZE && !p.control.flags.trailing
    ensures Feed1(p, LF) == HeadEnd(HeadersDone(p), 1)
  {
    hide StepState, Feed1;
    var c := p.control.(nread := p.control.nread + 1);
    LfStep(c);
    StopOf(p, LF);
    if StepState(c, LF).Next? {
      FeedOf(p, LF);
    }
  }

  lemma LfStep(c: Control)
    requires c.state.HeadersAlmostDone? && !c.flags.trailing
    ensures var d := c.(nread := 0, upgrade := c.flags.upgrade || c.verb.Connect?);
            var e := QUIET.(headersComplete := true);
            StepState(c, LF) ==
            if c.usesTransferEncoding && c.flags.contentLength then Err(UnexpectedContentLength)
            else if d.upgrade then Halt(d.(state := StartReq), e.(complete := true))
            else if c.flags.chunked then Next(d.(state := ChunkSizeStart), e)
            else if c.usesTransferEncoding then Err(InvalidTransferEncoding)
            else if c.contentLength == 0 || c.contentLength == NO_LENGTH
            then Next(d.(state := StartReq), e.(complete := true))
            else Next(d.(state := BodyIdentity), e)
  {
  }

  lemma EndPush(p: Parser, s: string, q: Parser)
    requires Run(p, s).More? && Feed1(Run(p, s).parser, LF) == HeadEnd(q, 1)
    ensures Run(p, s + [LF]) == HeadEnd(q, |s| + 1)
  {
    hide Feed1, Completed;
    assert (s + [LF])[..|s|] == s;
  }

  // ---------------------------------------------------------------- whole requests

  datatype Content =
    | Identity(body: string)
    /** Section 4.1 of RFC 7230: chunks, the last chunk, trailer lines. */
    | Chunked(chunks: seq<Chunk>, last: Chunk, trailers: seq<Line>)

  /** A request as a client writes it. */
  datatype Sent = Sent(verb: Method, url: string, major: nat, minor: nat, lines: seq<Line>, content: Content)

  /** Bytes after a body that stay counted against the limit on the next header block: the trailers
      of a chunked body and the empty line behind them. */
  function Carry(content: Content): nat {
    if content.Chunked? then |HeadText(content.trailers)| + 2 else 0
  }

  /** Section 3.3.3 of RFC 7230: what the header says about the body is true of it. */
  predicate Framed(s: Sent) {
    match s.content
    case Identity(body) =>
      && !Has(s.lines, ChunkedLine) && !Has(s.lines, OtherEncoding)
      && |body| == (if Has(s.lines, LengthLine) then DeclaredLength(s.lines) else 0)
    case Chunked(chunks, last, trailers) =>
      && Has(s.lines, ChunkedLine) && !Has(s.lines, LengthLine)
      && AllChunks(chunks) && IsSizeLine(last) && last.data == ""
      && AllLines(trailers) && OneLength(trailers) && Carry(s.content) <= MAX_HEADER_SIZE
  }

  /** The start line and the header lines can be read. */
  predicate Readable(s: Sent) {
    && Target(s.verb.Connect?, s.url) && s.major < 10 && s.minor < 10
    && AllLines(s.lines) && OneLength(s.lines)
  }

  /** The connection is to be used for something else behind the header block. */
  predicate Upgrades(s: Sent) {
    s.verb.Connect? || Has(s.lines, UpgradeLine)
  }

  predicate WellFormed(s: Sent) {
    Readable(s) && !Upgrades(s) && Framed(s)
  }

  function Head(s: Sent): string
    requires Readable(s)
  {
    StartLine(s.verb, s.url, s.major, s.minor) + HeadText(s.lines) + "\r\n"
  }

  function BodyText(content: Content): string {
    match content
    case Identity(body) => body
    case Chunked(chunks, last, trailers) => ChunksText(chunks) + SizeLine(last) + HeadText(trailers) + "\r\n"
  }

  function Text(s: Sent): string
    requires WellFormed(s)
  {
    Head(s) + BodyText(s.content)
  }

  function BodyOf(content: Content): string {
    match content
    case Identity(body) => body
    case Chunked(chunks, _, _) => ChunksData(chunks)
  }

  /** The trailers that reach the handler, behind the headers: those with a value, but never the
      last. */
  function FiledTrailers(content: Content): seq<(string, string)> {
    if content.Chunked? then Filed(Front(content.trailers)) else []
  }

  /** What the handler must be given for `s`. */
  function Meant(s: Sent): Request {
    var http10 := s.major == 1 && s.minor == 0;
    var http11 := s.major == 1 && s.minor == 1;
    Request(s.verb, s.url, HeadersOf(s.lines) + FiledTrailers(s.content), BodyOf(s.content), s.major, s.minor,
            if http10 then Has(s.lines, KeepAliveLine) else http11,
            if http10 then !Has(s.lines, KeepAliveLine) else http11 && Has(s.lines, CloseLine),
            Upgrades(s))
  }

  lemma FileLast(m: Message, lines: seq<Line>, c: Control)
    requires AllLines(lines) && m.field == "" && m.value == "" && m.headers == []
    ensures OnHeadersComplete(WithLines(m, lines), c) ==
            m.(headers := HeadersOf(lines), keepAlive := KeepAliveOf(c), closeConnection := CloseOf(c))
  {
    if lines != [] {
      LineHasName(lines[|lines| - 1].header, lines[|lines| - 1].kind);
    }
  }

  lemma LineHasName(h: HeaderLine, k: LineKind)
    requires IsLine(h, k)
    ensures h.name != ""
  {
  }

  /** The request after the header block, before the body. */
  function HeadMessage(s: Sent): Message {
    BLANK.(rawUrl := s.url, headers := HeadersOf(s.lines), keepAlive := Meant(s).keepAlive,
           closeConnection := Meant(s).closeConnection)
  }

  /** The control fields that matter after the header block. */
  predicate HeadControl(s: Sent, c: Control) {
    && c.nread == 0 && c.upgrade == Upgrades(s) && (c.verb, c.major, c.minor) == (s.verb, s.major, s.minor)
    && c.contentLength == DeclaredLength(s.lines)
    && c.usesTransferEncoding == (Has(s.lines, ChunkedLine) || Has(s.lines, OtherEncoding))
    && c.flags == Flags(Has(s.lines, ChunkedLine), Has(s.lines, KeepAliveLine), Has(s.lines, CloseLine),
                        false, Has(s.lines, UpgradeLine), Has(s.lines, LengthLine))
  }

  /** Any start line and any header lines: the parser is left with exactly what they say, and goes on,
      stops or fails as that demands. */
  lemma HeadExactly(p: Parser, s: Sent) returns (c: Control)
    requires p.control.state.StartReq? && Readable(s)
    requires p.control.nread + |Head(s)| <= MAX_HEADER_SIZE
    ensures HeadControl(s, c)
    ensures Run(p, Head(s)) == HeadEnd(Parser(c, HeadMessage(s), p.delivered), |Head(s)|)
  {
    hide Run, Feed1, StartLine, HeadText, AllLines, OneLength, Has, HeadersOf, Filed, Front, WithLines, Settle,
         HeadEnd, Target;
    var t := StartLine(s.verb, s.url, s.major, s.minor);
    StartLineRun(p, s.verb, s.url, s.major, s.minor);
    var q := Run(p, t).parser;
    HeadRun(q, s.lines);
    RunJoin(p, t, HeadText(s.lines));
    var u := t + HeadText(s.lines);
    var v := Run(p, u).parser;
    CrFeed(v);
    SettleKept(v.control);
    RunPush(p, u, CR);
    var w := Run(p, u + [CR]).parser;
    LfFeed(w);
    EndPush(p, u + [CR], HeadersDone(w));
    assert u + [CR] + [LF] == Head(s);
    FileLast(q.message, s.lines, HeadersDone(w).control);
    c := HeadersDone(w).control;
  }

  /** A request that upgrades the connection, or opens a tunnel, is handed over at the end of its header
      block, and the parser stops exactly there, whatever follows. */
  lemma UpgradeExactly(p: Parser, s: Sent, rest: string)
    requires p.control.state.StartReq? && Readable(s) && Upgrades(s) && s.content == Identity("")
    requires !Has(s.lines, LengthLine) || !(Has(s.lines, ChunkedLine) || Has(s.lines, OtherEncoding))
    requires p.control.nread + |Head(s)| <= MAX_HEADER_SIZE
    ensures Run(p, Head(s) + rest) == Upgraded(|Head(s)|, p.delivered + [Meant(s)])
    ensures Meant(s).upgrade && Meant(s).body == ""
  {
    hide Run, Head, Has, HeadersOf, Readable;
    var c := HeadExactly(p, s);
    RunAppend(p, Head(s), rest);
    assert HeadersOf(s.lines) + [] == HeadersOf(s.lines);
  }

  /** A request with both ways to delimit its body is refused, whatever follows. */
  lemma TwoFramingsRefused(p: Parser, s: Sent, rest: string)
    requires p.control.state.StartReq? && Readable(s)
    requires Has(s.lines, LengthLine) && (Has(s.lines, ChunkedLine) || Has(s.lines, OtherEncoding))
    requires p.control.nread + |Head(s)| <= MAX_HEADER_SIZE
    ensures Run(p, Head(s) + rest) == Failed(UnexpectedContentLength, p.delivered)
  {
    hide Run, Head, Has, HeadersOf, Readable;
    var c := HeadExactly(p, s);
    RunAppend(p, Head(s), rest);
  }

  /** A request with a transfer coding whose last one is not chunked is refused, whatever follows. */
  lemma OtherEncodingRefused(p: Parser, s: Sent, rest: string)
    requires p.control.state.StartReq? && Readable(s) && !Upgrades(s)
    requires Has(s.lines, OtherEncoding) && !Has(s.lines, ChunkedLine) && !Has(s.lines, LengthLine)
    requires p.control.nread + |Head(s)| <= MAX_HEADER_SIZE
    ensures Run(p, Head(s) + rest) == Failed(InvalidTransferEncoding, p.delivered)
  {
    hide Run, Head, Has, HeadersOf, Readable;
    var c := HeadExactly(p, s);
    RunAppend(p, Head(s), rest);
  }

  /** The parser after the header block of a well-formed request. */
  function AfterHead(p: Parser, s: Sent, c: Control): Parser
    requires WellFormed(s)
  {
    var q := Parser(c, HeadMessage(s), p.delivered);
    if s.content.Chunked? then q.(control := c.(state := ChunkSizeStart))
    else if s.content.body == "" then Completed(q)
    else q.(control := c.(state := BodyIdentity))
  }

  lemma HeadDoneRun(p: Parser, s: Sent) returns (c: Control)
    requires p.control.state.StartReq? && WellFormed(s)
    requires p.control.nread + |Head(s)| <= MAX_HEADER_SIZE
    ensures HeadControl(s, c) && Run(p, Head(s)) == More(AfterHead(p, s, c))
  {
    hide Run, Head, Has, HeadersOf, Readable, AllLines, AllChunks, IsSizeLine;
    c := HeadExactly(p, s);
    DeclaredFits(s.lines) by {
      ReadableLines(s);
    }
  }

  lemma ReadableLines(s: Sent)
    requires Readable(s)
    ensures AllLines(s.lines)
  {
  }

  /** `s` has been handed over, once, and the next byte starts a new message. */
  predicate HandsOver(r: Outcome, p: Parser, s: Sent) {
    && r.More? && r.parser.control.state.StartReq? && r.parser.control.nread == Carry(s.content)
    && r.parser.delivered == p.delivered + [Meant(s)]
  }

  lemma IdentityRequest(p: Parser, s: Sent)
    requires p.control.state.StartReq? && WellFormed(s) && s.content.Identity?
    requires p.control.nread + |Head(s)| <= MAX_HEADER_SIZE
    ensures HandsOver(Run(p, Text(s)), p, s)
  {
    hide Run, Head, AllLines, OneLength, Has;
    var c := HeadDoneRun(p, s);
    DeclaredFits(s.lines);
    assert HeadersOf(s.lines) + [] == HeadersOf(s.lines);
    var body := s.content.body;
    var q := AfterHead(p, s, c);
    if body == "" {
      assert Text(s) == Head(s);
    } else {
      IdentityEnd(q, body);
      RunJoin(p, Head(s), body);
      assert "" + body == body;
    }
  }

  /** The last chunk and the trailers end the message; the last trailer is never filed. */
  lemma LastChunkRun(p: Parser, last: Chunk, trailers: seq<Line>)
    requires p.control.state.ChunkSizeStart? && p.control.nread == 0 && p.control.flags.chunked
    requires !p.control.flags.contentLength && p.message.value == "" && !p.message.inField
    requires IsSizeLine(last) && last.data == "" && AllLines(trailers) && OneLength(trailers)
    requires |HeadText(trailers)| + 2 <= MAX_HEADER_SIZE
    ensures var r := Run(p, SizeLine(last) + HeadText(trailers) + "\r\n");
            && r.More? && r.parser.control.state.StartReq? && r.parser.control.nread == |HeadText(trailers)| + 2
            && r.parser.delivered == p.delivered + [ToRequest(WithLines(p.message, trailers), p.control)]
  {
    hide Run, Feed1, IsSizeLine, SizeLine, AllLines, OneLength, HeadText, Settle, Has;
    SizeLineRun(p, last);
    var q := Run(p, SizeLine(last)).parser;
    HeadRun(q, trailers);
    RunJoin(p, SizeLine(last), HeadText(trailers));
    var t := SizeLine(last) + HeadText(trailers);
    CrFeed(Run(p, t).parser);
    RunPush(p, t, CR);
    SettleKept(Run(p, t).parser.control);
    TrailerEndFeed(Run(p, t + [CR]).parser);
    RunPush(p, t + [CR], LF);
    assert t + [CR] + [LF] == t + "\r\n";
  }

  lemma TrailerEndFeed(p: Parser)
    requires p.control.state.HeadersAlmostDone? && p.control.nread + 1 <= MAX_HEADER_SIZE && p.control.flags.trailing
    ensures Feed1(p, LF) == More(Completed(p.(control := p.control.(nread := p.control.nread + 1))))
  {
    FeedOf(p, LF);
  }

  /** A chunked body, with its trailers, is read as the data of its chunks. */
  lemma ChunkedBodyRun(q: Parser, content: Content)
    requires q.control.state.ChunkSizeStart? && q.control.nread == 0 && q.control.flags.chunked
    requires !q.control.flags.contentLength && q.message.value == "" && !q.message.inField && content.Chunked?
    requires AllChunks(content.chunks) && IsSizeLine(content.last) && content.last.data == ""
    requires AllLines(content.trailers) && OneLength(content.trailers) && Carry(content) <= MAX_HEADER_SIZE
    ensures var r := Run(q, BodyText(content));
            && r.More? && r.parser.control.state.StartReq? && r.parser.control.nread == Carry(content)
            && r.parser.delivered ==
               q.delivered
                   + [ToRequest(WithLines(OnBody(q.message, ChunksData(content.chunks)), content.trailers), q.control)]
  {
    hide Run, AllLines, OneLength, AllChunks, IsSizeLine, SizeLine, HeadText, WithLines;
    var cs, last, trailers := content.chunks, content.last, content.trailers;
    ChunksRun(q, cs);
    var t := ChunksText(cs);
    LastChunkRun(Run(q, t).parser, last, trailers);
    RunJoin(q, t, SizeLine(last) + HeadText(trailers) + "\r\n");
    assert t + (SizeLine(last) + HeadText(trailers) + "\r\n") == BodyText(content);
  }

  lemma ChunkedRequest(p: Parser, s: Sent)
    requires p.control.state.StartReq? && WellFormed(s) && s.content.Chunked?
    requires p.control.nread + |Head(s)| <= MAX_HEADER_SIZE
    ensures HandsOver(Run(p, Text(s)), p, s)
  {
    hide Run, Head, AllLines, OneLength, Has, AllChunks, IsSizeLine, SizeLine, HeadersOf, Filed, Front, Carry, BodyText;
    var c := HeadDoneRun(p, s);
    var q := AfterHead(p, s, c);
    ChunkedBodyRun(q, s.content);
    RunJoin(p, Head(s), BodyText(s.content));
    assert "" + ChunksData(s.content.chunks) == ChunksData(s.content.chunks);
    assert HeadersOf(s.lines) + [] == HeadersOf(s.lines);
    if s.content.trailers == [] {
      NoTrailers(s.content);
    }
  }

  lemma NoTrailers(content: Content)
    requires content.Chunked? && content.trailers == []
    ensures FiledTrailers(content) == []
  {
  }

  /** The parser inverts the writing of a request: exactly that request is handed over, once,
      and the next byte starts a new message. */
  lemma RequestRun(p: Parser, s: Sent)
    requires p.control.state.StartReq? && WellFormed(s)
    requires p.control.nread + |Head(s)| <= MAX_HEADER_SIZE
    ensures HandsOver(Run(p, Text(s)), p, s)
  {
    hide Run;
    if s.content.Identity? {
      IdentityRequest(p, s);
    } else {
      ChunkedRequest(p, s);
    }
  }

  /** What the request before the `i`th leaves counted. */
  function CarryInto(ss: seq<Sent>, i: nat): nat
    requires i <= |ss|
  {
    if i == 0 then 0 else Carry(ss[i - 1].content)
  }

  predicate AllWellFormed(ss: seq<Sent>) {
    forall i :: 0 <= i < |ss| ==> WellFormed(ss[i]) && CarryInto(ss, i) + |Head(ss[i])| <= MAX_HEADER_SIZE
  }

  function StreamText(ss: seq<Sent>): string
    requires AllWellFormed(ss)
  {
    if ss == [] then "" else StreamText(ss[..|ss| - 1]) + Text(ss[|ss| - 1])
  }

  function AllMeant(ss: seq<Sent>): seq<Request> {
    seq(|ss|, i requires 0 <= i < |ss| => Meant(ss[i]))
  }

  /** A connection that carries any sequence of requests hands over exactly these requests, in
      order, whatever their bodies contain. */
  lemma {:induction false} StreamRun(ss: seq<Sent>)
    requires AllWellFormed(ss)
    ensures var r := Run(START, StreamText(ss));
            && r.More? && r.parser.control.state.StartReq? && r.parser.control.nread == CarryInto(ss, |ss|)
            && r.parser.delivered == AllMeant(ss)
  {
    hide Run, Text, WellFormed, Head, Meant, Carry;
    if ss == [] {
      RunEmpty(START, StreamText(ss));
    } else {
      var k := |ss| - 1;
      StreamRun(ss[..k]);
      RequestRun(Run(START, StreamText(ss[..k])).parser, ss[k]);
      RunJoin(START, StreamText(ss[..k]), Text(ss[k]));
      assert AllMeant(ss) == AllMeant(ss[..k]) + [Meant(ss[k])];
    }
  }
}
