/** What holds of the parser's fields in every reachable state, and when its asserts can fail. */
module HttpInvariants {
  import opened Basics
  import opened HttpChars
  import opened HttpMethods
  import opened HttpControl
  import opened HttpMessage
  import opened HttpSteps

  /** Matching progress stays within the word being matched, so `index` fits its five bits. */
  predicate IndexFits(h: Scan) {
    && h.index <= 17
    && (h.kind.C? ==> h.index == 0) && (h.kind.CO? ==> h.index == 1) && (h.kind.CON? ==> h.index == 2)
    && (h.kind.TokenStart? ==> h.index == 0)
    && (h.kind.MatchingConnection? ==> h.index < |CONNECTION|)
    && (h.kind.MatchingProxyConnection? ==> h.index < |PROXY_CONNECTION|)
    && (h.kind.MatchingContentLength? ==> h.index < |CONTENT_LENGTH|)
    && (h.kind.MatchingTransferEncoding? ==> h.index < |TRANSFER_ENCODING|)
    && (h.kind.MatchingUpgrade? ==> h.index < |UPGRADE|)
    && (h.kind.MatchingChunked? ==> h.index < |CHUNKED|)
    && (h.kind.MatchingKeepAlive? ==> h.index < |KEEP_ALIVE|)
    && (h.kind.MatchingClose? ==> h.index < |CLOSE|)
  }

  /** States inside or just after a header value. */
  predicate AfterValueStart(s: State) {
    s.Value? || s.HeaderAlmostDone? || s.ValueLws?
  }

  predicate IsChunkState(s: State) {
    IsChunkLineState(s) || s.ChunkData? || s.ChunkDataAlmostDone? || s.ChunkDataDone?
  }

  /** The invariant; `k` bytes of a chunk-size line have been counted before its first digit. */
  predicate Holds(c: Control, k: nat) {
    && !c.state.Dead? && c.nread <= MAX_HEADER_SIZE && c.major < 10 && c.minor < 10
    && c.index <= 17 && (c.state.Field? || c.state.Value? ==> IndexFits(ScanOf(c)))
    && (c.state.ReqMethod? ==> 1 <= c.index <= |Name(c.verb)|)
    && (AfterValueStart(c.state) ==> !c.headerState.TransferEncodingName? && !c.headerState.ContentLengthName?)
    && (IsChunkState(c.state) ==> c.flags.chunked)
    && (c.state.ChunkSizeStart? ==> c.nread == k)
    && (c.state.ChunkSize? || c.state.ChunkParameters? || c.state.ChunkSizeAlmostDone? ==> c.contentLength < NO_LENGTH)
    && (c.state.ChunkData? || c.state.BodyIdentity? ==> 0 < c.contentLength < NO_LENGTH)
    && (c.state.ChunkDataAlmostDone? ==> c.contentLength == 0)
    && (c.flags.contentLength ==> c.contentLength < NO_LENGTH)
  }

  predicate Inv(c: Control) {
    Holds(c, 0)
  }

  /** A step keeps the invariant and no assert fails. */
  predicate Good(r: StepResult) {
    (r.Next? ==> Inv(r.control)) && r != Err(AssertionFailed)
  }

  lemma NameLength(m: Method)
    ensures 3 <= |Name(m)| <= 11
  {
  }

  lemma StartGood(c: Control, ch: char)
    requires Holds(c, 1) && c.state.StartReq?
    ensures Good(StepStart(c, ch))
  {
    hide FirstGuess;
    if FirstGuess(ch).Guessed? {
      NameLength(FirstGuess(ch).verb);
    }
  }

  lemma MethodGood(c: Control, ch: char)
    requires Holds(c, 1) && c.state.ReqMethod?
    ensures Good(StepMethod(c, ch))
  {
    hide Name, Correct;
    NameLength(c.verb);
    var g := Refine(c.verb, c.index, ch);
    if g.Guessed? {
      NameLength(g.verb);
      if !(c.index < |Name(c.verb)| && ch == Name(c.verb)[c.index]) {
        CorrectFits(c.verb, c.index, ch);
      }
    }
  }

  lemma UrlGood(c: Control, ch: char)
    requires Holds(c, 1) && (c.state.SpacesBeforeUrl? || IsUrlState(c.state))
    ensures Good(StepUrl(c, ch))
  {
    hide IndexFits;
    UrlNextState(if c.state.SpacesBeforeUrl? && c.verb.Connect? then ServerStart else c.state, ch);
    hide UrlNext;
  }

  lemma UrlNextState(s: State, ch: char)
    ensures UrlNext(s, ch).Dead? || IsUrlState(UrlNext(s, ch))
  {
  }

  lemma VersionGood(c: Control, ch: char)
    requires Holds(c, 1) && IsVersionState(c.state)
    ensures Good(StepVersion(c, ch))
  {
    hide Holds, IndexFits;
    VersionFields(c, ch);
    if StepVersion(c, ch).Next? {
      VersionHolds(c, StepVersion(c, ch).control);
    }
    hide StepVersion;
  }

  /** The request line's version only moves between its own states. */
  lemma VersionFields(c: Control, ch: char)
    requires IsVersionState(c.state)
    ensures StepVersion(c, ch) != Err(AssertionFailed)
    ensures StepVersion(c, ch).Next? ==>
              var d := StepVersion(c, ch).control;
              && d == c.(state := d.state, major := d.major, minor := d.minor)
              && (c.major < 10 && c.minor < 10 ==> d.major < 10 && d.minor < 10)
              && (IsVersionState(d.state) || d.state.FieldStart?)
  {
  }

  lemma VersionHolds(c: Control, d: Control)
    requires Holds(c, 1) && IsVersionState(c.state) && (IsVersionState(d.state) || d.state.FieldStart?)
    requires d == c.(state := d.state, major := d.major, minor := d.minor)
    requires c.major < 10 && c.minor < 10 ==> d.major < 10 && d.minor < 10
    ensures Inv(d)
  {
    hide IndexFits;
  }

  // ---------------------------------------------------------------- header states

  lemma FieldTokenFits(h: Scan, ch: char, t: char)
    requires IndexFits(h)
    ensures IndexFits(FieldToken(h, ch, t))
  {
  }

  /** Names whose value has not begun to be read. */
  predicate IsNameKind(k: HeaderState) {
    k.TransferEncodingName? || k.ContentLengthName? || k.ConnectionName?
  }

  lemma ValueWordFits(h: Scan, ch: char, l: char)
    requires IndexFits(h) && (h.kind.MatchingChunked? || h.kind.MatchingKeepAlive? || h.kind.MatchingClose?)
    ensures IndexFits(ValueToken(h, ch, l)) && !IsNameKind(ValueToken(h, ch, l).kind)
  {
  }

  lemma ValueTokenFits(h: Scan, ch: char, l: char)
    requires IndexFits(h)
    ensures IndexFits(ValueToken(h, ch, l)) && !IsNameKind(ValueToken(h, ch, l).kind)
  {
    if h.kind.MatchingChunked? || h.kind.MatchingKeepAlive? || h.kind.MatchingClose? {
      ValueWordFits(h, ch, l);
    }
    hide Match, CHUNKED, KEEP_ALIVE, CLOSE, CONNECTION, PROXY_CONNECTION, CONTENT_LENGTH, TRANSFER_ENCODING, UPGRADE;
  }

  lemma ValueByteFits(h: Scan, length: uint64, ch: char)
    requires IndexFits(h) && ValueByte(h, length, ch).InValue?
    ensures IndexFits(ValueByte(h, length, ch).scan)
    ensures IsNameKind(ValueByte(h, length, ch).scan.kind) ==> h.kind == ValueByte(h, length, ch).scan.kind
    ensures length < NO_LENGTH ==> ValueByte(h, length, ch).contentLength < NO_LENGTH
  {
    ValueTokenFits(h, ch, Lower(ch));
    hide ValueToken, CHUNKED, KEEP_ALIVE, CLOSE, CONNECTION, PROXY_CONNECTION, CONTENT_LENGTH, TRANSFER_ENCODING,
         UPGRADE;
  }

  lemma NameStartFits(t: char)
    ensures IndexFits(Scan(NameStart(t), 0))
  {
  }

  lemma FieldStartGood(c: Control, ch: char)
    requires Holds(c, 1) && IsHeaderState(c.state)
    ensures Good(StepFieldStart(c, ch))
  {
    hide NameStart, IndexFits;
    NameStartFits(Token(ch));
    EndGood(c, ch);
    hide EndOfHeaders;
  }

  lemma EndGood(c: Control, ch: char)
    requires Holds(c, 1) && IsHeaderState(c.state)
    ensures Good(EndOfHeaders(c, ch))
  {
    hide IndexFits;
  }

  lemma StartIndexFits(k: HeaderState)
    requires !k.CO? && !k.CON?
    ensures IndexFits(Scan(k, 0))
  {
  }

  /** The first byte of a value settles which value is being read. */
  lemma ValueStartKind(c: Control, ch: char)
    requires IsHeaderState(c.state) && StepValueStart(c, ch).Next?
    ensures var d := StepValueStart(c, ch).control;
            d.state.Value? && d.index == 0 && d.nread == c.nread && d.major == c.major && d.minor == c.minor
    ensures var k := StepValueStart(c, ch).control.headerState;
            !k.CO? && !k.CON? && !k.TransferEncodingName? && !k.ContentLengthName?
            && (k.ConnectionName? ==> c.headerState.ConnectionName? && (ch == NUL || ch == ' '))
  {
  }

  lemma ValueStartGood(c: Control, ch: char)
    requires Holds(c, 1) && IsHeaderState(c.state)
    ensures Good(StepValueStart(c, ch))
    ensures StepValueStart(c, ch).Next? && StepValueStart(c, ch).control.headerState.ConnectionName? ==>
              c.headerState.ConnectionName? && (ch == NUL || ch == ' ')
  {
    hide IndexFits;
    if StepValueStart(c, ch).Next? {
      ValueStartKind(c, ch);
      StartIndexFits(StepValueStart(c, ch).control.headerState);
      hide StepValueStart;
    }
  }

  lemma FieldGood(c: Control, ch: char)
    requires Holds(c, 1) && c.state.Field?
    ensures Good(StepField(c, ch))
  {
    hide IndexFits, FieldToken;
    FieldTokenFits(ScanOf(c), ch, Token(ch));
    IndexSmall(FieldToken(ScanOf(c), ch, Token(ch)));
  }

  lemma IndexSmall(h: Scan)
    requires IndexFits(h)
    ensures h.index <= 17
  {
  }

  /** The only assert that a header value can run into: a Connection value still undecided. */
  predicate Undecided(c: Control, ch: char) {
    c.state.Value? && c.headerState.ConnectionName? && ch != CR && ch != LF && IsHeaderChar(ch)
  }

  lemma ValueAssert(h: Scan, length: uint64, ch: char)
    requires !h.kind.TransferEncodingName?
    ensures ValueByte(h, length, ch) == BadValue(AssertionFailed) <==> h.kind.ConnectionName? && IsHeaderChar(ch)
  {
  }

  lemma ValueGood(c: Control, ch: char)
    requires Holds(c, 1) && c.state.Value?
    ensures if Undecided(c, ch) then StepValue(c, ch) == Err(AssertionFailed) else Good(StepValue(c, ch))
    ensures StepValue(c, ch).Next? && StepValue(c, ch).control.headerState.ConnectionName? ==>
            c.headerState.ConnectionName?
  {
    hide IndexFits, ValueByte;
    ValueAssert(ScanOf(c), c.contentLength, ch);
    var v := ValueByte(ScanOf(c), c.contentLength, ch);
    if ch == CR || ch == LF {
      ValueEndHolds(c, if ch == CR then HeaderAlmostDone else ValueLws);
    } else if v.InValue? {
      ValueByteFits(ScanOf(c), c.contentLength, ch);
      ValueHolds(c, v);
      hide Holds;
    }
  }

  lemma ValueEndHolds(c: Control, s: State)
    requires Holds(c, 1) && c.state.Value? && (s.HeaderAlmostDone? || s.ValueLws?)
    ensures Inv(c.(state := s))
  {
    hide IndexFits;
  }

  lemma ValueHolds(c: Control, v: ValueResult)
    requires Holds(c, 1) && c.state.Value? && v.InValue? && IndexFits(v.scan)
    requires IsNameKind(v.scan.kind) ==> c.headerState == v.scan.kind
    requires c.contentLength < NO_LENGTH ==> v.contentLength < NO_LENGTH
    ensures Inv(WithScan(c, v.scan).(contentLength := v.contentLength))
  {
    hide IndexFits;
    IndexSmall(v.scan);
  }

  lemma DiscardGood(c: Control, ch: char)
    requires Holds(c, 1)
    ensures c.state.DiscardWs? ==> Good(StepDiscardWs(c, ch))
    ensures c.state.DiscardLws? ==> Good(StepDiscardLws(c, ch))
  {
    hide IndexFits, StepValueStart, StepFieldStart;
    if c.state.DiscardWs? {
      ValueStartGood(c, ch);
    } else if c.state.DiscardLws? {
      FieldStartGood(c, ch);
    }
  }

  lemma FoldGood(c: Control, ch: char)
    requires Holds(c, 1) && c.state.ValueLws?
    ensures Good(StepValueLws(c, ch))
  {
    FinishHolds(c);
    hide StepValueStart, StepFieldStart, IndexFits, Holds, Good;
    ValueStartGood(if c.headerState.ContentLengthNum? then c.(headerState := ContentLengthWs) else c, ch);
    FieldStartGood(FinishHeader(c), ch);
  }

  lemma FinishHolds(c: Control)
    requires Holds(c, 1) && c.state.ValueLws?
    ensures Holds(FinishHeader(c), 1) && IsHeaderState(FinishHeader(c).state)
    ensures c.headerState.ContentLengthNum? ==> Holds(c.(headerState := ContentLengthWs), 1)
  {
    hide IndexFits;
  }

  lemma HeaderGood(c: Control, ch: char)
    requires Holds(c, 1) && IsHeaderState(c.state)
    ensures if Undecided(c, ch) then StepHeader(c, ch) == Err(AssertionFailed) else Good(StepHeader(c, ch))
  {
    if c.state.FieldStart? {
      FieldStartGood(c, ch);
    } else if c.state.Field? {
      FieldGood(c, ch);
    } else if c.state.Value? {
      ValueGood(c, ch);
    } else if c.state.ValueLws? {
      FoldGood(c, ch);
    } else if c.state.HeadersAlmostDone? {
      EndGood(c, ch);
    } else {
      DiscardGood(c, ch);
    }
    hide StepFieldStart, StepField, StepValue, StepValueLws, StepDiscardWs, StepDiscardLws, EndOfHeaders, IndexFits;
  }

  // ---------------------------------------------------------------- body states

  lemma ChunkLineGood(c: Control, ch: char)
    requires Holds(c, 1) && IsChunkLineState(c.state)
    ensures Good(StepChunkLine(c, ch))
  {
    hide IndexFits;
  }

  lemma BodyGood(c: Control, ch: char)
    requires Holds(c, 0)
             && (c.state.BodyIdentity? || c.state.ChunkData? || c.state.ChunkDataAlmostDone? || c.state.ChunkDataDone?)
    ensures Good(StepBody(c, ch))
  {
    hide IndexFits, StepChunkLine;
  }

  // ---------------------------------------------------------------- all states

  lemma StateGood(c: Control, ch: char)
    requires Holds(c, 1) && ParsingHeader(c.state)
    ensures if Undecided(c, ch) then StepState(c, ch) == Err(AssertionFailed) else Good(StepState(c, ch))
  {
    hide StepStart, StepMethod, StepUrl, StepVersion, StepHeader, StepChunkLine, Good;
    if c.state.StartReq? {
      StartGood(c, ch);
    } else if c.state.ReqMethod? {
      MethodGood(c, ch);
    } else if c.state.SpacesBeforeUrl? || IsUrlState(c.state) {
      UrlGood(c, ch);
    } else if IsVersionState(c.state) {
      VersionGood(c, ch);
    } else if IsHeaderState(c.state) {
      HeaderGood(c, ch);
    } else {
      ChunkLineGood(c, ch);
    }
  }

  /** A counted byte in a header state, or an uncounted one in a body. */
  lemma StepGood(c: Control, ch: char)
    requires Inv(c)
    ensures if Undecided(c, ch) && c.nread < MAX_HEADER_SIZE then Step(c, ch) == Err(AssertionFailed)
            else Good(Step(c, ch))
  {
    hide IndexFits, StepBody, StepHeader, StepStart, StepMethod, StepUrl, StepVersion;
    if !ParsingHeader(c.state) {
      BodyGood(c, ch);
    } else if c.nread + 1 <= MAX_HEADER_SIZE {
      StateGood(c.(nread := c.nread + 1), ch);
      hide StepState;
    }
  }

  // ---------------------------------------------------------------- undecided Connection values

  /** The value of a Connection header has been given a kind by its first byte. */
  predicate Decided(c: Control) {
    AfterValueStart(c.state) ==> !c.headerState.ConnectionName?
  }

  lemma BodyState(c: Control, ch: char)
    requires IsBodyState(c.state) && StepBody(c, ch).Next?
    ensures !AfterValueStart(StepBody(c, ch).control.state)
  {
    hide Unhex;
  }

  lemma LineState(c: Control, ch: char)
    requires c.state.SpacesBeforeUrl? || IsUrlState(c.state) || IsVersionState(c.state)
    ensures c.state.SpacesBeforeUrl? || IsUrlState(c.state) ==>
              StepUrl(c, ch).Next? ==> !AfterValueStart(StepUrl(c, ch).control.state)
    ensures IsVersionState(c.state) ==>
              StepVersion(c, ch).Next? ==> !AfterValueStart(StepVersion(c, ch).control.state)
  {
    UrlNextState(if c.state.SpacesBeforeUrl? && c.verb.Connect? then ServerStart else c.state, ch);
    hide UrlNext;
  }

  /** Only a step inside the header block can leave the parser inside or behind a value. */
  lemma OutsideHeaders(c: Control, ch: char)
    requires !IsHeaderState(c.state) && StepState(c, ch).Next?
    ensures !AfterValueStart(StepState(c, ch).control.state)
  {
    hide FirstGuess, Refine, Name;
    if c.state.SpacesBeforeUrl? || IsUrlState(c.state) || IsVersionState(c.state) {
      LineState(c, ch);
    } else if IsBodyState(c.state) {
      BodyState(c, ch);
    }
    hide StepUrl, StepVersion, StepBody;
  }

  lemma FieldStartState(c: Control, ch: char)
    requires IsHeaderState(c.state)
    ensures StepFieldStart(c, ch).Next? ==> !AfterValueStart(StepFieldStart(c, ch).control.state)
  {
    hide NameStart;
  }

  lemma InsideHeaders(c: Control, ch: char)
    requires Holds(c, 1) && IsHeaderState(c.state) && Decided(c) && ch != NUL && StepHeader(c, ch).Next?
    ensures Decided(StepHeader(c, ch).control)
  {
    hide IndexFits;
    if c.state.Value? {
      ValueGood(c, ch);
    } else if c.state.DiscardWs? {
      if ch != ' ' && ch != '\t' && ch != CR && ch != LF {
        ValueStartKind(c, ch);
      }
    } else if c.state.ValueLws? {
      if ch == ' ' || ch == '\t' {
        ValueStartKind(if c.headerState.ContentLengthNum? then c.(headerState := ContentLengthWs) else c, ch);
      } else {
        FieldStartState(FinishHeader(c), ch);
      }
    } else if c.state.FieldStart? || c.state.DiscardLws? {
      if !(ch == ' ' || ch == '\t') {
        FieldStartState(c, ch);
      }
    }
    hide StepFieldStart, StepValueStart, StepField, ValueByte;
  }

  lemma StepDecided(c: Control, ch: char)
    requires Inv(c) && Decided(c) && ch != NUL && Step(c, ch).Next?
    ensures Decided(Step(c, ch).control)
  {
    hide IndexFits, StepBody, StepHeader, StepStart, StepMethod, StepUrl, StepVersion;
    var b := if ParsingHeader(c.state) then c.(nread := c.nread + 1) else c;
    if IsHeaderState(b.state) {
      InsideHeaders(b, ch);
    } else {
      OutsideHeaders(b, ch);
    }
    hide StepState;
  }

  // ---------------------------------------------------------------- whole runs

  predicate Sound(o: Outcome) {
    match o
    case More(p) => Inv(p.control)
    case Failed(e, _) => e != AssertionFailed
    case Upgraded(_, _) => true
  }

  lemma ReachesAssert(c: Control, ch: char)
    requires Decided(c)
    ensures !Undecided(c, ch)
  {
  }

  lemma FeedSound(p: Parser, ch: char)
    requires Inv(p.control) && Decided(p.control) && ch != NUL
    ensures Sound(Feed1(p, ch))
    ensures Feed1(p, ch).More? ==> Decided(Feed1(p, ch).parser.control)
  {
    hide Callbacks, ToRequest, Decided, Holds;
    StepGood(p.control, ch);
    if Step(p.control, ch).Next? {
      StepDecided(p.control, ch);
    }
    ReachesAssert(p.control, ch);
    hide Step, Undecided;
  }

  /** From the initial state, no input without a NUL byte makes an assert of the parser
      fail, and the invariant holds after every prefix. */
  lemma {:induction false} RunSound(s: string)
    requires NUL !in s
    ensures Sound(Run(START, s))
    ensures Run(START, s).More? ==> Decided(Run(START, s).parser.control)
  {
    hide Inv, Decided, Feed1;
    if s == "" {
      InitialSound();
    } else {
      var k := |s| - 1;
      RunSound(s[..k]);
      if Run(START, s[..k]).More? {
        FeedSound(Run(START, s[..k]).parser, s[k]);
      }
    }
  }

  /** The next byte runs into the assert. */
  predicate AtAssert(c: Control, ch: char) {
    Undecided(c, ch) && c.nread < MAX_HEADER_SIZE
  }

  predicate Asserts(o: Outcome) {
    o.Failed? && o.errno == AssertionFailed
  }

  lemma FeedAsserts(p: Parser, ch: char)
    requires Inv(p.control)
    ensures Asserts(Feed1(p, ch)) <==> AtAssert(p.control, ch)
    ensures Feed1(p, ch).More? ==> Inv(Feed1(p, ch).parser.control)
  {
    hide Callbacks, ToRequest, Holds, Step;
    StepGood(p.control, ch);
    hide Undecided;
  }

  /** For every input the invariant holds after every prefix that is accepted, and an assert fails
      exactly when some byte meets a Connection value that is still undecided. */
  lemma {:induction false} AssertsExactly(s: string)
    ensures Run(START, s).More? ==> Inv(Run(START, s).parser.control)
    ensures Asserts(Run(START, s)) <==>
            exists k :: 0 <= k < |s| && Run(START, s[..k]).More? && AtAssert(Run(START, s[..k]).parser.control, s[k])
  {
    hide Inv, Feed1, AtAssert;
    if s == "" {
      InitialSound();
    } else {
      var n := |s| - 1;
      var t := s[..n];
      AssertsExactly(t);
      forall k | 0 <= k < n ensures s[..k] == t[..k] && s[k] == t[k] {
      }
      if Run(START, t).More? {
        FeedAsserts(Run(START, t).parser, s[n]);
        forall k | 0 <= k < n ensures !(Run(START, s[..k]).More? && AtAssert(Run(START, s[..k]).parser.control, s[k])) {
        }
      } else if Asserts(Run(START, t)) {
        var k :| 0 <= k < |t| && Run(START, t[..k]).More? && AtAssert(Run(START, t[..k]).parser.control, t[k]);
        assert s[..k] == t[..k] && s[k] == t[k];
      }
    }
  }

  lemma InitialSound()
    ensures Inv(INITIAL) && Decided(INITIAL)
  {
  }
}
