/** What the parser does about line ends: blank lines in front of a request, lines that end in a line feed
    alone, and header lines that go on behind a line end (section 3.2.4 of RFC 7230). */
module HttpFolding {
  import opened Basics
  import opened HttpChars
  import opened HttpControl
  import opened HttpSyntax
  import opened HttpMessage
  import opened HttpSteps
  import opened HttpCodings
  import opened HttpValues
  import opened HttpHeaders
  import opened HttpRequests

  // ---------------------------------------------------------------- blank lines

  /** Line ends in front of a request are passed over. */
  lemma {:induction false} BlankLines(p: Parser, s: string)
    requires p.control.state.StartReq? && p.control.nread + |s| <= MAX_HEADER_SIZE
    requires forall i :: 0 <= i < |s| ==> s[i] == '\r' || s[i] == '\n'
    ensures Run(p, s) == More(p.(control := p.control.(nread := p.control.nread + |s|)))
  {
    hide Feed1;
    if s != "" {
      var k := |s| - 1;
      BlankLines(p, s[..k]);
      var q := Run(p, s[..k]).parser;
      QuietFeed(q, s[k], q.control.(nread := q.control.nread + 1));
    }
  }

  // ---------------------------------------------------------------- line feeds

  /** The parser stands where a line may end: behind a value, in front of one, or at the empty line that
      ends a header block. */
  predicate AtEnd(s: State) {
    s.Value? || s.DiscardWs? || s.FieldStart? || s.ValueLws? || s.DiscardLws?
  }

  /** Where the two outcomes do not differ but in the bytes counted. */
  predicate SameButCount(a: Outcome, b: Outcome) {
    match a
    case More(p) => b.More? && b.parser == p.(control := p.control.(nread := b.parser.control.nread))
    case Failed(e, d) => b == a
    case Upgraded(n, d) => b.Upgraded? && b.delivered == d
  }

  /** A line feed alone ends a line as the two bytes of a line end do. */
  lemma LineFeedAlone(p: Parser)
    requires AtEnd(p.control.state) && p.control.nread + 2 <= MAX_HEADER_SIZE
    ensures SameButCount(Run(p, "\r\n"), Run(p, "\n"))
  {
    hide Feed1, Run;
    RunOne(p, CR);
    RunOne(p, LF);
    assert [CR] + [LF] == "\r\n" && [LF] == "\n";
    RunAppend(p, [CR], [LF]);
    if p.control.state.Value? {
      ValueLineFeed(p);
    } else if p.control.state.DiscardWs? {
      NoValueLineFeed(p);
    } else {
      BlockLineFeed(p);
    }
    RunOne(Feed1(p, CR).parser, LF);
  }

  lemma ValueLineFeed(p: Parser)
    requires p.control.state.Value? && p.control.nread + 2 <= MAX_HEADER_SIZE
    ensures Feed1(p, CR).More? && SameButCount(Feed1(Feed1(p, CR).parser, LF), Feed1(p, LF))
  {
    hide Feed1;
    ValueEndFeed(p, CR);
    ValueEndFeed(p, LF);
    LineFeedFeed(Feed1(p, CR).parser);
  }

  lemma NoValueLineFeed(p: Parser)
    requires p.control.state.DiscardWs? && p.control.nread + 2 <= MAX_HEADER_SIZE
    ensures Feed1(p, CR).More? && SameButCount(Feed1(Feed1(p, CR).parser, LF), Feed1(p, LF))
  {
    hide Feed1;
    NoValueCrFeed(p);
    NoValueLfFeed(Feed1(p, CR).parser);
    QuietFeed(p, LF, p.control.(state := DiscardLws, nread := p.control.nread + 1));
  }

  /** The line feed that ends a header block. */
  function EndOutcome(p: Parser): Outcome
    requires IsHeaderState(p.control.state)
  {
    match EndOfHeaders(p.control, LF)
    case Next(c, e) => More(Deliver(p, c, e, LF))
    case Halt(c, e) => Upgraded(1, Deliver(p, c, e, LF).delivered)
    case Err(x) => Failed(x, p.delivered)
  }

  lemma EndQuiet(c: Control)
    requires IsHeaderState(c.state)
    ensures var r := EndOfHeaders(c, LF);
            !r.Err? ==> !r.effect.begin && !r.effect.emptyValue && r.effect.data.NoData?
  {
  }

  lemma EndStep(c: Control)
    requires AtLineStart(c)
    ensures var r := EndOfHeaders(Settle(c), LF);
            StepState(c, LF) == if r.Err? then r else r.(effect := r.effect.(emptyValue := c.state.DiscardLws?))
  {
    hide EndOfHeaders;
    EndQuiet(Settle(c));
  }

  lemma EndNow(p: Parser)
    requires AtLineStart(p.control) && p.control.nread + 1 <= MAX_HEADER_SIZE
    ensures Feed1(p, LF) == EndOutcome(Parser(Settle(p.control).(nread := p.control.nread + 1), Pend(p), p.delivered))
  {
    hide EndOfHeaders, StepState, OnHeadersComplete, OnValue, ToRequest;
    var c := p.control.(nread := p.control.nread + 1);
    EndStep(c);
    EndQuiet(Settle(c));
  }

  lemma EndLater(p: Parser)
    requires p.control.state.HeadersAlmostDone? && p.control.nread + 1 <= MAX_HEADER_SIZE
    ensures Feed1(p, LF) == EndOutcome(p.(control := p.control.(nread := p.control.nread + 1)))
  {
    hide BodyStart, OnHeadersComplete, OnValue, ToRequest;
  }

  lemma EndSame(p: Parser, q: Parser)
    requires IsHeaderState(p.control.state) && IsHeaderState(q.control.state)
    requires q == p.(control := p.control.(state := q.control.state, nread := q.control.nread))
    ensures SameButCount(EndOutcome(p), EndOutcome(q))
  {
  }

  /** The empty line behind the header lines. */
  lemma BlockLineFeed(p: Parser)
    requires AtLineStart(p.control) && p.control.nread + 2 <= MAX_HEADER_SIZE
    ensures Feed1(p, CR).More? && SameButCount(Feed1(Feed1(p, CR).parser, LF), Feed1(p, LF))
  {
    hide Feed1, EndOutcome, OnValue, Settle, Pend;
    var n := p.control.nread;
    CrFeed(p);
    EndLater(Feed1(p, CR).parser);
    EndNow(p);
    SettledState(p.control);
    EndSame(Parser(Settle(p.control).(state := HeadersAlmostDone, nread := n + 2), Pend(p), p.delivered),
            Parser(Settle(p.control).(nread := n + 1), Pend(p), p.delivered));
  }

  lemma SettledState(c: Control)
    requires AtLineStart(c)
    ensures IsHeaderState(Settle(c).state)
  {
  }

  // ---------------------------------------------------------------- folded lines

  /** The start of a line that goes on the value in front of it: whatever word the value was up to now,
      it counts for nothing any more. */
  lemma FoldStart(p: Parser, blank: char)
    requires p.control.state.ValueLws? && (blank == ' ' || blank == '\t')
    requires Whole(p.control.headerState) && p.control.nread + 1 <= MAX_HEADER_SIZE
    ensures Feed1(p, blank) ==
            More(Parser(p.control.(state := Value, headerState := General, index := 0, nread := p.control.nread + 1),
                        OnValue(p.message, [blank]), p.delivered))
  {
    DataFeed(p, blank, p.control.(state := Value, headerState := General, index := 0, nread := p.control.nread + 1),
             ValueData);
  }

  /** Where a value stands that is no Content-Length, no undecided Connection value and no list of codings
      behind a comma. */
  predicate Whole(k: HeaderState) {
    k.General? || k.EncodingToken? || k.ChunkedValue? || k.MatchingKeepAlive? || k.MatchingClose?
    || k.KeepAliveValue? || k.CloseValue?
  }

  lemma FoldRun(p: Parser, blank: char, rest: string)
    requires p.control.state.ValueLws? && !p.message.inField && (blank == ' ' || blank == '\t')
    requires Whole(p.control.headerState) && forall i :: 0 <= i < |rest| ==> FieldByte(rest[i])
    requires p.control.nread + |rest| + 3 <= MAX_HEADER_SIZE
    ensures Run(p, [blank] + rest + "\r\n") ==
            More(Parser(p.control.(headerState := General, index := 0, nread := p.control.nread + |rest| + 3),
                        OnValue(p.message, [blank] + rest), p.delivered))
  {
    hide Run, Feed1, Whole, FieldByte;
    var c1 := p.control.(state := Value, headerState := General, index := 0, nread := p.control.nread + 1);
    FoldStart(p, blank);
    RunOne(p, blank);
    FieldsText(rest);
    GeneralFold(ScanOf(c1), c1.contentLength, rest);
    ValueRun(Run(p, [blank]).parser, rest);
    RunJoin(p, [blank], rest);
    OnDataAppend(p.message, ValueData, [blank], rest);
    var s := [blank] + rest;
    ValueEndFeed(Run(p, s).parser, CR);
    RunPush(p, s, CR);
    LineFeedFeed(Run(p, s + [CR]).parser);
    RunPush(p, s + [CR], LF);
    assert s + [CR] + [LF] == s + "\r\n";
  }

  lemma FieldsText(s: string)
    requires forall i :: 0 <= i < |s| ==> FieldByte(s[i])
    ensures NoLineEnd(s) && forall i :: 0 <= i < |s| ==> IsHeaderChar(s[i])
  {
    forall i | 0 <= i < |s| ensures IsHeaderChar(s[i]) && s[i] != CR && s[i] != LF {
      FieldTable(s[i]);
    }
  }

  /** A header line that goes on: the parts of its value are joined without the line end, and it does not
      count as chunked, keep-alive or close any more, whatever its first part says. */
  lemma FoldedLine(p: Parser, h: HeaderLine, k: LineKind, blank: char, rest: string)
    requires AtLineStart(p.control) && IsLine(h, k) && (blank == ' ' || blank == '\t')
    requires k.Plain? || k.ChunkedLine? || k.KeepAliveLine? || k.CloseLine?
    requires forall i :: 0 <= i < |rest| ==> FieldByte(rest[i])
    requires p.control.nread + |LineText(h)| + |rest| + 3 <= MAX_HEADER_SIZE
    ensures var r := Run(p, LineText(h) + ([blank] + rest + "\r\n"));
            && r.More? && AtLineStart(r.parser.control) && r.parser.delivered == p.delivered
            && r.parser.message == OnValue(OnField(Pend(p), h.name), h.value + ([blank] + rest))
            && Settle(r.parser.control).flags == Settle(p.control).flags
            && r.parser.control.usesTransferEncoding == (Settle(p.control).usesTransferEncoding || k.ChunkedLine?)
  {
    hide Run, IsLine, LineText, Pend, FieldByte;
    LineRun(p, h, k);
    var q := Run(p, LineText(h)).parser;
    LineWhole(p.control, h, k);
    FoldRun(q, blank, rest);
    RunJoin(p, LineText(h), [blank] + rest + "\r\n");
    OnDataAppend(OnField(Pend(p), h.name), ValueData, h.value, [blank] + rest);
  }

  lemma LineWhole(c: Control, h: HeaderLine, k: LineKind)
    requires IsLine(h, k) && (k.Plain? || k.ChunkedLine? || k.KeepAliveLine? || k.CloseLine?)
    ensures var d := AfterLine(c, h, k);
            && Whole(d.headerState) && d.state.ValueLws? && d.flags == Settle(c).flags
            && d.usesTransferEncoding == (Settle(c).usesTransferEncoding || k.ChunkedLine?)
  {
    hide Settle, LineText, ValueFold, EndsChunked;
    match k {
      case Plain =>
      case ChunkedLine => EncodingExactly(h.value, Settle(c).contentLength);
      case _ => ConnectionValue(h.value, Settle(c).contentLength);
    }
  }

  /** A Content-Length line that goes on may hold nothing but spaces behind the first blank. */
  lemma FoldedLength(p: Parser, blank: char, rest: string)
    requires p.control.state.ValueLws? && !p.message.inField && (blank == ' ' || blank == '\t')
    requires p.control.headerState.ContentLengthNum? || p.control.headerState.ContentLengthWs?
    requires forall i :: 0 <= i < |rest| ==> FieldByte(rest[i])
    requires p.control.nread + |rest| + 1 <= MAX_HEADER_SIZE
    ensures Run(p, [blank] + rest) ==
            if forall i :: 0 <= i < |rest| ==> rest[i] == ' ' then
              More(Parser(p.control.(state := Value, headerState := ContentLengthWs, index := 0,
                                     nread := p.control.nread + |rest| + 1),
                          OnValue(p.message, [blank] + rest), p.delivered))
            else Failed(InvalidContentLength, p.delivered)
  {
    hide Run, Feed1, FieldByte, ValueFold;
    var c1 := p.control.(state := Value, headerState := ContentLengthWs, index := 0, nread := p.control.nread + 1);
    LengthGoesOn(p, blank);
    RunOne(p, blank);
    FieldsText(rest);
    SpacesOnly(ScanOf(c1), c1.contentLength, rest);
    var q := Run(p, [blank]).parser;
    if forall i :: 0 <= i < |rest| ==> rest[i] == ' ' {
      ValueRun(q, rest);
      OnDataAppend(p.message, ValueData, [blank], rest);
    } else {
      BadValueRun(q, rest);
    }
    RunAppend(p, [blank], rest);
  }

  lemma LengthGoesOn(p: Parser, blank: char)
    requires p.control.state.ValueLws? && (blank == ' ' || blank == '\t')
    requires p.control.headerState.ContentLengthNum? || p.control.headerState.ContentLengthWs?
    requires p.control.nread + 1 <= MAX_HEADER_SIZE
    ensures Feed1(p, blank) ==
            More(Parser(p.control.(state := Value, headerState := ContentLengthWs, index := 0,
                                   nread := p.control.nread + 1),
                        OnValue(p.message, [blank]), p.delivered))
  {
    DataFeed(p, blank, p.control.(state := Value, headerState := ContentLengthWs, index := 0,
                                  nread := p.control.nread + 1), ValueData);
  }

  lemma {:induction false} SpacesOnly(h: Scan, length: uint64, s: string)
    requires h.kind.ContentLengthWs? && forall i :: 0 <= i < |s| ==> IsHeaderChar(s[i])
    ensures ValueFold(h, length, s) ==
            if forall i :: 0 <= i < |s| ==> s[i] == ' ' then InValue(h, length) else BadValue(InvalidContentLength)
  {
    hide IsHeaderChar;
    if s != "" {
      var k := |s| - 1;
      SpacesOnly(h, length, s[..k]);
      assert (forall i :: 0 <= i < |s| ==> s[i] == ' ') <==>
             (forall i :: 0 <= i < k ==> s[..k][i] == ' ') && s[k] == ' ';
    }
  }

  /** A value that begins on the line behind its name is read as if it stood there. */
  lemma LateValue(p: Parser, gap: string, blank: char)
    requires p.control.state.Field? && IsGap(gap) && (blank == ' ' || blank == '\t')
    requires p.control.nread + 4 + |gap| <= MAX_HEADER_SIZE
    ensures SameButCount(Run(p, ":" + gap), Run(p, ":" + gap + "\r\n" + [blank]))
  {
    hide Run, Feed1;
    ColonRun(p, gap);
    NoValueRun(p, gap);
    var q := Run(p, ":" + gap + "\r\n").parser;
    QuietFeed(q, blank, q.control.(state := DiscardWs, nread := q.control.nread + 1));
    RunPush(p, ":" + gap + "\r\n", blank);
  }
}
