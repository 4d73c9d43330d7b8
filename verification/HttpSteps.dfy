/** Per-byte facts about the control states of a request, in the order of a request. */
module HttpSteps {
  import opened Basics
  import opened HttpChars
  import opened HttpMethods
  import opened HttpControl
  import opened HttpMessage

  lemma FeedOf(p: Parser, ch: char)
    requires ParsingHeader(p.control.state) && p.control.nread + 1 <= MAX_HEADER_SIZE
    requires StepState(p.control.(nread := p.control.nread + 1), ch).Next?
    ensures var r := StepState(p.control.(nread := p.control.nread + 1), ch);
            Feed1(p, ch) == More(Deliver(p, r.control, r.effect, ch))
  {
    hide StepState, Deliver;
  }

  /** A byte at which the parser stops, for another protocol or for an error. */
  lemma StopOf(p: Parser, ch: char)
    requires ParsingHeader(p.control.state) && p.control.nread + 1 <= MAX_HEADER_SIZE
    ensures var r := StepState(p.control.(nread := p.control.nread + 1), ch);
            && (r.Halt? ==> Feed1(p, ch) == Upgraded(1, Deliver(p, r.control, r.effect, ch).delivered))
            && (r.Err? ==> Feed1(p, ch) == Failed(r.errno, p.delivered))
  {
    hide StepState, Deliver;
  }

  /** A byte that changes nothing but the control fields. */
  lemma QuietFeed(p: Parser, ch: char, c: Control)
    requires ParsingHeader(p.control.state) && p.control.nread + 1 <= MAX_HEADER_SIZE
    requires StepState(p.control.(nread := p.control.nread + 1), ch) == Next(c, QUIET)
    ensures Feed1(p, ch) == More(Parser(c, p.message, p.delivered))
  {
    hide StepState;
    FeedOf(p, ch);
  }

  /** A byte that belongs to a data callback. */
  lemma DataFeed(p: Parser, ch: char, c: Control, d: Data)
    requires ParsingHeader(p.control.state) && p.control.nread + 1 <= MAX_HEADER_SIZE
    requires StepState(p.control.(nread := p.control.nread + 1), ch) == Next(c, QUIET.(data := d))
    ensures Feed1(p, ch) == More(Parser(c, OnData(p.message, d, [ch]), p.delivered))
  {
    hide StepState;
    FeedOf(p, ch);
  }

  /** Continue a run that is still going by one byte. */
  lemma RunPush(p: Parser, s: string, ch: char)
    requires Run(p, s).More? && !Feed1(Run(p, s).parser, ch).Upgraded?
    ensures Run(p, s + [ch]) == Feed1(Run(p, s).parser, ch)
  {
    hide Feed1;
    assert (s + [ch])[..|s|] == s;
  }

  /** Continue a run that is still going by more bytes. */
  lemma RunJoin(p: Parser, s: string, t: string)
    requires Run(p, s).More?
    ensures Run(Run(p, s).parser, t).More? ==> Run(p, s + t) == Run(Run(p, s).parser, t)
  {
    hide Run;
    RunAppend(p, s, t);
  }

  // ---------------------------------------------------------------- method

  lemma NameChars(m: Method, i: nat)
    requires i < |Name(m)|
    ensures 'A' <= Name(m)[i] <= 'Z' || Name(m)[i] == '-'
  {
    if |Name(m)| <= 4 {
      ShortNameChars(m, i);
    } else if |Name(m)| <= 6 {
      MediumNameChars(m, i);
    }
  }

  lemma ShortNameChars(m: Method, i: nat)
    requires i < |Name(m)| <= 4
    ensures 'A' <= Name(m)[i] <= 'Z' || Name(m)[i] == '-'
  {
  }

  lemma MediumNameChars(m: Method, i: nat)
    requires i < |Name(m)| && 5 <= |Name(m)| <= 6
    ensures 'A' <= Name(m)[i] <= 'Z' || Name(m)[i] == '-'
  {
  }

  lemma GuessChars(m: Method, i: nat, ch: char)
    requires Refine(m, i, ch).Guessed?
    ensures 'A' <= ch <= 'Z' || ch == '-'
  {
    hide Name, Correct;
    if i < |Name(m)| && ch == Name(m)[i] {
      NameChars(m, i);
    }
  }

  /** Fields after `k` characters of a method name. */
  function InMethod(c: Control, m: Method, k: nat): Control {
    c.(state := ReqMethod, flags := NO_FLAGS, usesTransferEncoding := false, contentLength := NO_LENGTH,
       verb := m, index := k, major := 0, minor := 0, nread := c.nread + k)
  }

  lemma BeginFeed(p: Parser, ch: char)
    requires p.control.state.StartReq? && p.control.nread + 1 <= MAX_HEADER_SIZE && FirstGuess(ch).Guessed?
    ensures Feed1(p, ch) == More(Parser(InMethod(p.control, FirstGuess(ch).verb, 1), BLANK, p.delivered))
  {
    FeedOf(p, ch);
  }

  lemma MethodFeed(p: Parser, ch: char)
    requires p.control.state.ReqMethod? && p.control.nread + 1 <= MAX_HEADER_SIZE
    requires Refine(p.control.verb, p.control.index, ch).Guessed?
    ensures Feed1(p, ch) ==
            More(p.(control := p.control.(verb := Refine(p.control.verb, p.control.index, ch).verb,
                                          index := p.control.index + 1, nread := p.control.nread + 1)))
  {
    hide Refine, Name;
    GuessChars(p.control.verb, p.control.index, ch);
    FeedOf(p, ch);
  }

  lemma {:induction false} MethodRun(p: Parser, s: string)
    requires p.control.state.StartReq? && |s| > 0 && Recognise(s).Guessed?
    requires p.control.nread + |s| <= MAX_HEADER_SIZE
    ensures Run(p, s) == More(Parser(InMethod(p.control, Recognise(s).verb, |s|), BLANK, p.delivered))
  {
    hide Feed1, Refine, FirstGuess;
    var k := |s| - 1;
    assert s == s[..k] + [s[k]];
    if k == 0 {
      BeginFeed(p, s[0]);
      RunOne(p, s[0]);
    } else {
      MethodRun(p, s[..k]);
      MethodFeed(Run(p, s[..k]).parser, s[k]);
    }
  }

  /** The space after the method. */
  lemma MethodEndFeed(p: Parser)
    requires p.control.state.ReqMethod? && p.control.nread + 1 <= MAX_HEADER_SIZE
    requires p.control.index == |Name(p.control.verb)|
    ensures Feed1(p, ' ') ==
            More(p.(control := p.control.(state := SpacesBeforeUrl, index := p.control.index + 1,
                                          nread := p.control.nread + 1)))
  {
    hide Name;
    FeedOf(p, ' ');
  }

  // ---------------------------------------------------------------- version

  lemma VersionFeed(p: Parser, ch: char)
    requires IsVersionState(p.control.state) && p.control.nread + 1 <= MAX_HEADER_SIZE
    requires var r := StepVersion(p.control.(nread := p.control.nread + 1), ch); r.Next? && r.effect == QUIET
    ensures Feed1(p, ch) ==
            More(p.(control := StepVersion(p.control.(nread := p.control.nread + 1), ch).control))
  {
    hide StepVersion;
    QuietFeed(p, ch, StepVersion(p.control.(nread := p.control.nread + 1), ch).control);
  }

  // ---------------------------------------------------------------- header bytes

  lemma FieldFeed(p: Parser, ch: char)
    requires p.control.state.Field? && Token(ch) != NUL
    ensures Feed1(p, ch) ==
            if p.control.nread + 1 > MAX_HEADER_SIZE then Failed(HeaderOverflow, p.delivered)
            else More(Parser(InField(p.control, ch).(nread := p.control.nread + 1),
                             OnData(p.message, FieldData, [ch]), p.delivered))
  {
  }

  /** The fields after a byte that continues a header value. */
  function AfterValue(c: Control, v: ValueResult): Control
    requires v.InValue?
  {
    WithScan(c, v.scan).(contentLength := v.contentLength)
  }

  lemma ValueFeed(p: Parser, ch: char)
    requires p.control.state.Value? && ch != CR && ch != LF
    ensures Feed1(p, ch) ==
            var v := ValueByte(ScanOf(p.control), p.control.contentLength, ch);
            if p.control.nread + 1 > MAX_HEADER_SIZE then Failed(HeaderOverflow, p.delivered)
            else if v.BadValue? then Failed(v.errno, p.delivered)
            else More(Parser(AfterValue(p.control, v).(nread := p.control.nread + 1),
                             OnData(p.message, ValueData, [ch]), p.delivered))
  {
  }

  lemma OverflowFeed(p: Parser, ch: char)
    requires ParsingHeader(p.control.state) && p.control.nread + 1 > MAX_HEADER_SIZE
    ensures Feed1(p, ch) == Failed(HeaderOverflow, p.delivered)
  {
    hide StepState;
  }

  /** The byte that ends a header name. */
  lemma FieldEndFeed(p: Parser, ch: char)
    requires p.control.state.Field? && Token(ch) == NUL
    ensures Feed1(p, ch) ==
            if p.control.nread + 1 > MAX_HEADER_SIZE then Failed(HeaderOverflow, p.delivered)
            else if ch != ':' then Failed(InvalidHeaderToken, p.delivered)
            else More(p.(control := p.control.(nread := p.control.nread + 1, state := DiscardWs)))
  {
  }

  /** The line end after a header value. */
  lemma ValueEndFeed(p: Parser, ch: char)
    requires p.control.state.Value? && (ch == CR || ch == LF)
    ensures Feed1(p, ch) ==
            if p.control.nread + 1 > MAX_HEADER_SIZE then Failed(HeaderOverflow, p.delivered)
            else More(p.(control := p.control.(nread := p.control.nread + 1,
                                               state := if ch == CR then HeaderAlmostDone else ValueLws)))
  {
  }

  // ---------------------------------------------------------------- body bytes, per byte

  lemma IdentityFeed(p: Parser, ch: char)
    requires p.control.state.BodyIdentity? && 0 < p.control.contentLength < NO_LENGTH
    ensures Feed1(p, ch) ==
            var m := OnBody(p.message, [ch]);
            var c := p.control.(contentLength := p.control.contentLength - 1);
            if p.control.contentLength > 1 then More(Parser(c, m, p.delivered))
            else More(Parser(c.(state := StartReq), m, p.delivered + [ToRequest(m, c)]))
  {
  }

  lemma ChunkFeed(p: Parser, ch: char)
    requires p.control.state.ChunkData? && p.control.flags.chunked && 0 < p.control.contentLength < NO_LENGTH
    ensures Feed1(p, ch) ==
            var c := p.control.(contentLength := p.control.contentLength - 1,
                                state := if p.control.contentLength == 1 then ChunkDataAlmostDone else ChunkData);
            More(Parser(c, OnBody(p.message, [ch]), p.delivered))
  {
  }

  /** Part of a body delimited by Content-Length, not its end. */
  lemma {:induction false} IdentityRun(p: Parser, s: string)
    requires p.control.state.BodyIdentity? && |s| < p.control.contentLength < NO_LENGTH
    ensures Run(p, s) == More(Parser(p.control.(contentLength := p.control.contentLength - |s|),
                                     OnBody(p.message, s), p.delivered))
  {
    hide Feed1;
    if s != "" {
      var k := |s| - 1;
      IdentityRun(p, s[..k]);
      IdentityFeed(Run(p, s[..k]).parser, s[k]);
      OnDataAppend(p.message, BodyData, s[..k], [s[k]]);
      assert s == s[..k] + [s[k]];
    } else {
      assert p.message.body + s == p.message.body;
    }
  }

  /** Exactly the rest of a body delimited by Content-Length: the message is handed over. */
  lemma IdentityEnd(p: Parser, s: string)
    requires p.control.state.BodyIdentity? && 0 < |s| == p.control.contentLength < NO_LENGTH
    ensures var c := p.control.(contentLength := 0);
            var m := OnBody(p.message, s);
            Run(p, s) == More(Parser(c.(state := StartReq), m, p.delivered + [ToRequest(m, c)]))
  {
    hide Feed1;
    var k := |s| - 1;
    IdentityRun(p, s[..k]);
    IdentityFeed(Run(p, s[..k]).parser, s[k]);
    OnDataAppend(p.message, BodyData, s[..k], [s[k]]);
    assert s == s[..k] + [s[k]];
  }

  /** Data of a chunk, up to and including its end. */
  lemma {:induction false} ChunkRun(p: Parser, s: string)
    requires p.control.state.ChunkData? && p.control.flags.chunked && |s| <= p.control.contentLength < NO_LENGTH
    requires p.control.contentLength > 0
    ensures Run(p, s) ==
            More(Parser(p.control.(contentLength := p.control.contentLength - |s|,
                                   state := if |s| == p.control.contentLength then ChunkDataAlmostDone else ChunkData),
                        OnBody(p.message, s), p.delivered))
  {
    hide Feed1;
    if s != "" {
      var k := |s| - 1;
      ChunkRun(p, s[..k]);
      ChunkFeed(Run(p, s[..k]).parser, s[k]);
      OnDataAppend(p.message, BodyData, s[..k], [s[k]]);
      assert s == s[..k] + [s[k]];
    } else {
      assert p.message.body + s == p.message.body;
    }
  }

  lemma StuckFeed(p: Parser, ch: char)
    requires p.control.state.BodyIdentity? || p.control.state.ChunkData?
    requires p.control.contentLength == 0 || p.control.contentLength == NO_LENGTH
             || (p.control.state.ChunkData? && !p.control.flags.chunked)
    ensures Feed1(p, ch) == Failed(AssertionFailed, p.delivered)
  {
  }

  lemma RunEmpty(p: Parser, s: string)
    requires s == ""
    ensures Run(p, s) == More(p)
  {
  }
}
