/** Header lines that the parser refuses, or on which it does not do what the grammar of a header
    promises, each stated for every parser that is about to read the line. */
module HttpLimits {
  import opened Basics
  import opened HttpChars
  import opened HttpMethods
  import opened HttpControl
  import opened HttpSyntax
  import opened HttpMessage
  import opened HttpSteps
  import opened HttpNames
  import opened HttpValues
  import opened HttpHeaders
  import opened HttpRequests
  import HttpInvariants

  /** A Connection value whose first byte is NUL stays undecided: the byte after it, if it may
      stand in a header at all, runs into the parser's assert. */
  lemma NulValueAsserts(p: Parser, name: string, gap: string, ch: char)
    requires AtLineStart(p.control) && |name| > 0 && TokenText(name) && ConnectionHeader(name) && IsGap(gap)
    requires p.control.nread + |name| + |gap| + 3 <= MAX_HEADER_SIZE
    requires FieldByte(ch)
    ensures Run(p, name + (":" + gap) + [NUL] + [ch]) == Failed(AssertionFailed, p.delivered)
  {
    hide Run, Feed1, OnField, OnValue, NameScan, ReachesEncoding, Settle, Lowered, TokenText, StepValueStart, Pend,
         IsGap;
    NameRun(p, name);
    NameFacts(name);
    var q := Run(p, name).parser;
    ColonRun(q, gap);
    RunJoin(p, name, ":" + gap);
    var t := name + (":" + gap);
    var v := Run(p, t).parser;
    var c := v.control.(nread := v.control.nread + 1);
    NulStart(c);
    ValueFirstFeed(v, NUL, c.(state := Value, index := 0));
    RunPush(p, t, NUL);
    var w := Run(p, t + [NUL]).parser;
    UndecidedFeed(w, ch);
    RunPush(p, t + [NUL], ch);
  }

  lemma NulStart(c: Control)
    requires IsHeaderState(c.state) && c.headerState.ConnectionName?
    ensures StepValueStart(c, NUL) == Next(c.(state := Value, index := 0), QUIET.(data := ValueData))
  {
  }

  lemma UndecidedFeed(p: Parser, ch: char)
    requires p.control.state.Value? && p.control.headerState.ConnectionName?
    requires FieldByte(ch) && p.control.nread + 1 <= MAX_HEADER_SIZE
    ensures Feed1(p, ch) == Failed(AssertionFailed, p.delivered)
  {
  }

  // ---------------------------------------------------------------- Content-Length

  lemma NameAndGap(p: Parser, h: HeaderLine) returns (q: Parser)
    requires AtLineStart(p.control) && |h.name| > 0 && TokenText(h.name) && IsGap(h.gap)
    requires p.control.nread + |LineText(h)| <= MAX_HEADER_SIZE
    ensures var c := AfterName(p.control, h.name);
            && q == Parser(c.(state := DiscardWs, nread := c.nread + 1 + |h.gap|), OnField(Pend(p), h.name),
                           p.delivered)
            && q.control.nread == p.control.nread + |h.name| + 1 + |h.gap|
            && Run(p, h.name + (":" + h.gap)) == More(q)
  {
    hide Run, OnField, NameScan, ReachesEncoding, Settle, TokenText, Pend, IsGap;
    NameRun(p, h.name);
    ColonRun(Run(p, h.name).parser, h.gap);
    RunJoin(p, h.name, ":" + h.gap);
    q := Run(p, h.name + (":" + h.gap)).parser;
  }

  lemma FailLine(p: Parser, s: string, t: string)
    requires Run(p, s).Failed?
    ensures Run(p, s + t) == Run(p, s)
  {
    RunAppend(p, s, t);
  }

  /** A value whose first byte is refused. */
  lemma BadStart(p: Parser, h: HeaderLine, e: Errno)
    requires AtLineStart(p.control) && |h.name| > 0 && TokenText(h.name) && IsGap(h.gap) && ValueText(h.value)
    requires p.control.nread + |LineText(h)| <= MAX_HEADER_SIZE
    requires var c := AfterName(p.control, h.name);
             StepValueStart(c.(state := DiscardWs, nread := c.nread + 2 + |h.gap|), h.value[0]) == Err(e)
    ensures Run(p, LineText(h)) == Failed(e, p.delivered)
  {
    hide Run, OnField, AfterName, StepValueStart, TokenText, Pend, IsGap;
    var q := NameAndGap(p, h);
    ValueRaw(h.value);
    FirstChar(h.value);
    hide ValueText;
    var t, ch := h.name + (":" + h.gap), h.value[0];
    BadStartFeed(q, ch, e);
    RunPush(p, t, ch);
    FailLine(p, t + [ch], h.value[1..] + "\r\n");
    assert t + [ch] + (h.value[1..] + "\r\n") == LineText(h);
  }

  lemma BadStartFeed(q: Parser, ch: char, e: Errno)
    requires q.control.state.DiscardWs? && q.control.nread + 1 <= MAX_HEADER_SIZE
    requires ch != ' ' && ch != '\t' && ch != CR && ch != LF
    requires StepValueStart(q.control.(nread := q.control.nread + 1), ch) == Err(e)
    ensures Feed1(q, ch) == Failed(e, q.delivered)
  {
    hide StepValueStart;
  }

  /** A value that is refused behind its first byte. */
  lemma BadRest(p: Parser, h: HeaderLine, c1: Control)
    requires AtLineStart(p.control) && |h.name| > 0 && TokenText(h.name) && IsGap(h.gap) && ValueText(h.value)
    requires p.control.nread + |LineText(h)| <= MAX_HEADER_SIZE
    requires var c := AfterName(p.control, h.name);
             var n := c.nread + 2 + |h.gap|;
             StepValueStart(c.(state := DiscardWs, nread := n), h.value[0]) == Next(c1, QUIET.(data := ValueData))
             && c1.state.Value? && c1.nread == n
    requires ValueFold(ScanOf(c1), c1.contentLength, h.value[1..]).BadValue?
    ensures Run(p, LineText(h)) ==
            Failed(ValueFold(ScanOf(c1), c1.contentLength, h.value[1..]).errno, p.delivered)
  {
    hide Run, OnField, AfterName, StepValueStart, TokenText, Pend, IsGap, ValueFold, ScanOf;
    var q := NameAndGap(p, h);
    FirstChar(h.value);
    RestPlain(h.value);
    hide ValueText;
    var t, ch := h.name + (":" + h.gap), h.value[0];
    ValueFirstFeed(q, ch, c1);
    RunPush(p, t, ch);
    var w := Run(p, t + [ch]).parser;
    BadValueRun(w, h.value[1..]);
    RunAppend(p, t + [ch], h.value[1..]);
    FailLine(p, t + [ch] + h.value[1..], "\r\n");
    assert t + [ch] + h.value[1..] + "\r\n" == LineText(h);
  }

  lemma RestPlain(value: string)
    requires ValueText(value)
    ensures NoLineEnd(value[1..])
  {
  }

  /** A Content-Length header, whatever its value: it is accepted if and only if the value is a decimal
      number that passes the overflow test, with spaces behind it, and it is the first one. */
  lemma LengthLineExactly(p: Parser, h: HeaderLine)
    requires AtLineStart(p.control) && |h.name| > 0 && TokenText(h.name) && Lowered(h.name) == "content-length"
    requires IsGap(h.gap) && ValueText(h.value) && p.control.nread + |LineText(h)| <= MAX_HEADER_SIZE
    ensures Run(p, LineText(h)) ==
            if !IsNum(h.value[0]) then Failed(InvalidContentLength, p.delivered)
            else if Settle(p.control).flags.contentLength then Failed(UnexpectedContentLength, p.delivered)
            else if !LengthValue(Bare(h.value)) then Failed(InvalidContentLength, p.delivered)
            else More(Parser(AfterLine(p.control, h, LengthLine), WithLine(p, h, LengthLine), p.delivered))
  {
    hide Run, OnField, OnValue, Settle, Lowered, NameScan, ReachesEncoding, ValueFold, StepValueStart, Pend, Bare,
         LengthValue, ValueText, IsGap, TokenText;
    NameFacts(h.name);
    ValueRaw(h.value);
    FirstChar(h.value);
    var ch := h.value[0];
    var c := AfterName(p.control, h.name).(state := DiscardWs, nread := p.control.nread + |h.name| + 2 + |h.gap|);
    LengthStart(c, ch);
    if IsNum(ch) && !c.flags.contentLength {
      LengthExactly(h.value);
      if LengthValue(Bare(h.value)) {
        LengthRun(p, h);
      } else {
        ValueChars(h.value);
        BadRest(p, h, c.(state := Value, index := 0, flags := c.flags.(contentLength := true),
                         contentLength := ch as int - '0' as int, headerState := ContentLengthNum));
      }
    } else {
      BadStart(p, h, if IsNum(ch) then UnexpectedContentLength else InvalidContentLength);
    }
  }

  lemma LengthStart(c: Control, ch: char)
    requires IsHeaderState(c.state) && c.headerState.ContentLengthName?
    ensures StepValueStart(c, ch) ==
            if !IsNum(ch) then Err(InvalidContentLength)
            else if c.flags.contentLength then Err(UnexpectedContentLength)
            else Next(c.(state := Value, index := 0, flags := c.flags.(contentLength := true),
                         contentLength := ch as int - '0' as int, headerState := ContentLengthNum),
                      QUIET.(data := ValueData))
  {
  }

  lemma ValueChars(value: string)
    requires ValueText(value)
    ensures forall i :: 0 <= i < |value| ==> FieldByte(value[i])
  {
  }

  // ---------------------------------------------------------------- names longer than Transfer-Encoding

  /** A request whose only body-framing header is a longer name, such as Transfer-Encoding-X, is
      refused as if its transfer coding were not chunked. */
  lemma LongNameRefused(p: Parser, h: HeaderLine)
    requires AtLineStart(p.control) && !p.control.verb.Connect?
    requires Settle(p.control).flags == NO_FLAGS
    requires |h.name| > 17 && TokenText(h.name) && BeginsEncoding(h.name) && IsGap(h.gap) && ValueText(h.value)
    requires p.control.nread + |LineText(h)| + 2 <= MAX_HEADER_SIZE
    ensures Run(p, LineText(h) + [CR] + [LF]) == Failed(InvalidTransferEncoding, p.delivered)
  {
    hide Run, Feed1, OnField, OnValue, NameScan, ReachesEncoding, Settle, TokenText, ValueText, StepValueStart,
         ValueFold,
         BeginsEncoding, AfterValue, Pend, IsGap;
    LongName(h.name);
    ValueRaw(h.value);
    assert h.value != "" by {
      TextNonempty(h.value);
    }
    var c := AfterName(p.control, h.name).(state := DiscardWs, nread := p.control.nread + |h.name| + 2 + |h.gap|);
    var c1 := c.(state := Value, index := 0, headerState := General);
    PlainStart(c, h.value[0]);
    PlainValue(c1, h.value);
    JoinLine(p, h, c1);
    var q := Run(p, LineText(h)).parser;
    AfterPlain(c1, p.control.nread + |LineText(h)|);
    SettleKeeps(p.control);
    EndLineFeed(q);
    RunPush(p, LineText(h), CR);
    RefusedFeed(Run(p, LineText(h) + [CR]).parser);
    RunPush(p, LineText(h) + [CR], LF);
  }

  lemma LongName(name: string)
    requires |name| > 17 && TokenText(name) && BeginsEncoding(name)
    ensures ReachesEncoding(name) && IsNameKind(NameScan(name).kind)
    ensures var k := NameScan(name).kind;
            !k.UpgradeName? && !k.TransferEncodingName? && !k.ContentLengthName? && !k.ConnectionName?
  {
    hide NameScan, ReachesEncoding, IsNameKind, BeginsEncoding;
    NameFacts(name);
    assert |Lowered(name)| == |name|;
  }

  lemma TextNonempty(value: string)
    requires ValueText(value)
    ensures value != ""
  {
  }

  lemma PlainValue(c: Control, value: string)
    requires c.headerState.General? && ValueText(value)
    ensures ValueFold(ScanOf(c), c.contentLength, value[1..]) == InValue(ScanOf(c), c.contentLength)
  {
    GeneralFold(ScanOf(c), c.contentLength, value[1..]);
  }

  lemma AfterPlain(c: Control, n: nat)
    requires c.headerState.General?
    ensures AfterValue(c, InValue(ScanOf(c), c.contentLength)).(state := ValueLws, nread := n)
            == c.(state := ValueLws, nread := n)
  {
  }

  lemma SettleKeeps(c: Control)
    ensures Settle(c).verb == c.verb && Settle(c).nread == c.nread
  {
  }

  lemma EndLineFeed(p: Parser)
    requires p.control.state.ValueLws? && p.control.headerState.General? && p.control.nread + 1 <= MAX_HEADER_SIZE
    ensures Feed1(p, CR) == More(p.(control := p.control.(state := HeadersAlmostDone, nread := p.control.nread + 1)))
  {
    QuietFeed(p, CR, p.control.(state := HeadersAlmostDone, nread := p.control.nread + 1));
  }

  lemma RefusedFeed(p: Parser)
    requires p.control.state.HeadersAlmostDone? && p.control.nread + 1 <= MAX_HEADER_SIZE
    requires p.control.flags == NO_FLAGS && !p.control.verb.Connect? && p.control.usesTransferEncoding
    ensures Feed1(p, LF) == Failed(InvalidTransferEncoding, p.delivered)
  {
  }

  // ---------------------------------------------------------------- bytes that cannot stand in a header

  /** A name that meets a byte which is neither part of a token nor the colon is refused. */
  lemma NameRefused(p: Parser, name: string, ch: char)
    requires AtLineStart(p.control) && TokenText(name) && !TokenByte(ch)
    requires if name == "" then ch != CR && ch != LF && ch != ' ' && ch != '\t' else ch != ':'
    requires p.control.nread + |name| + 1 <= MAX_HEADER_SIZE
    ensures Run(p, name + [ch]) == Failed(InvalidHeaderToken, p.delivered)
  {
    hide Run, Feed1, OnField, OnValue, NameScan, ReachesEncoding, Settle, TokenText, Pend, TokenByte;
    TokenTable(ch);
    if name == "" {
      BadFirstFeed(p, ch);
      RunOne(p, ch);
      assert name + [ch] == [ch];
    } else {
      NameRun(p, name);
      BadNameFeed(Run(p, name).parser, ch);
      RunPush(p, name, ch);
    }
  }

  lemma BadFirstFeed(p: Parser, ch: char)
    requires AtLineStart(p.control) && Token(ch) == NUL && ch != CR && ch != LF && ch != ' ' && ch != '\t'
    requires p.control.nread + 1 <= MAX_HEADER_SIZE
    ensures Feed1(p, ch) == Failed(InvalidHeaderToken, p.delivered)
  {
    hide Token;
    StopOf(p, ch);
  }

  lemma BadNameFeed(p: Parser, ch: char)
    requires p.control.state.Field? && Token(ch) == NUL && ch != ':' && p.control.nread + 1 <= MAX_HEADER_SIZE
    ensures Feed1(p, ch) == Failed(InvalidHeaderToken, p.delivered)
  {
    hide Token;
    StopOf(p, ch);
  }

  /** The value of an ordinary header, whatever its bytes: it is kept as it is if and only if every byte
      behind the first may stand in a field value; the first one is not looked at. */
  lemma PlainExactly(p: Parser, h: HeaderLine)
    requires AtLineStart(p.control) && |h.name| > 0 && TokenText(h.name) && IsGap(h.gap)
    requires !ConnectionHeader(h.name) && Lowered(h.name) != "content-length" && Lowered(h.name) != "upgrade"
             && Lowered(h.name) != "transfer-encoding" && !BeginsEncoding(h.name)
    requires NoLineEnd(h.value) && h.value != "" && h.value[0] != ' ' && h.value[0] != '\t'
    requires p.control.nread + |LineText(h)| <= MAX_HEADER_SIZE
    ensures Run(p, LineText(h)) ==
            if forall i :: 1 <= i < |h.value| ==> FieldByte(h.value[i])
            then More(Parser(AfterLine(p.control, h, Plain), WithLine(p, h, Plain), p.delivered))
            else Failed(InvalidHeaderToken, p.delivered)
  {
    hide Run, Feed1, NameScan, ReachesEncoding, Settle, Lowered, TokenText, StepValueStart, ValueFold,
         BeginsEncoding, Pend, IsGap, FieldByte;
    if RawText(h.value) {
      PlainRun(p, h);
    } else {
      NameFacts(h.name);
      var q := NameAndGap(p, h);
      var ch := h.value[0];
      var c := q.control.(nread := q.control.nread + 1);
      PlainStart(c, ch);
      var c1 := c.(state := Value, index := 0, headerState := General);
      var t := h.name + (":" + h.gap);
      ValueFirstFeed(q, ch, c1);
      RunPush(p, t, ch);
      var v := Run(p, t + [ch]).parser;
      GeneralRefuses(ScanOf(c1), c1.contentLength, h.value[1..]);
      BadValueRun(v, h.value[1..]);
      RunAppend(p, t + [ch], h.value[1..]);
      FailLine(p, t + [ch] + h.value[1..], "\r\n");
      assert t + [ch] + h.value[1..] + "\r\n" == LineText(h);
    }
  }

  lemma {:induction false} GeneralRefuses(h: Scan, length: uint64, s: string)
    requires h.kind.General? && exists i :: 0 <= i < |s| && !FieldByte(s[i])
    requires NoLineEnd(s)
    ensures ValueFold(h, length, s) == BadValue(InvalidHeaderToken)
  {
    hide FieldByte;
    var k := |s| - 1;
    FieldTable(s[k]);
    if forall i :: 0 <= i < k ==> FieldByte(s[i]) {
      forall i | 0 <= i < k ensures IsHeaderChar(s[..k][i]) {
        FieldTable(s[i]);
      }
      GeneralFold(h, length, s[..k]);
    } else {
      GeneralRefuses(h, length, s[..k]);
    }
  }

  // ---------------------------------------------------------------- the limit

  /** In every state that is reached while a header block is read: the next byte overflows the limit if
      and only if 81920 bytes have been counted. */
  lemma LimitExactly(p: Parser, ch: char)
    requires HttpInvariants.Inv(p.control) && ParsingHeader(p.control.state)
    ensures p.control.nread <= 81920
    ensures Feed1(p, ch) == Failed(HeaderOverflow, p.delivered) <==> p.control.nread == 81920
  {
    hide StepState;
    if p.control.nread < 81920 {
      StopOf(p, ch);
      NoOverflow(p.control.(nread := p.control.nread + 1), ch);
    }
  }

  lemma NoOverflow(c: Control, ch: char)
    ensures StepState(c, ch) != Err(HeaderOverflow)
  {
    hide UrlNext, Refine, ValueByte, BodyStart, InField, StepValueStart, StepHeader, StepUrl, StepVersion,
         StepChunkLine,
         StepChunkData;
    UrlNoOverflow(c, ch);
    HeaderNoOverflow(c, ch);
    BodyNoOverflow(c, ch);
  }

  lemma UrlNoOverflow(c: Control, ch: char)
    ensures c.state.SpacesBeforeUrl? || IsUrlState(c.state) ==> StepUrl(c, ch) != Err(HeaderOverflow)
    ensures IsVersionState(c.state) ==> StepVersion(c, ch) != Err(HeaderOverflow)
  {
    hide UrlNext;
  }

  lemma HeaderNoOverflow(c: Control, ch: char)
    ensures IsHeaderState(c.state) ==> StepHeader(c, ch) != Err(HeaderOverflow)
  {
    hide InField, IsHeaderChar, Token, Lower, ValueToken;
  }

  lemma BodyNoOverflow(c: Control, ch: char)
    ensures IsChunkLineState(c.state) ==> StepChunkLine(c, ch) != Err(HeaderOverflow)
    ensures c.state.ChunkData? || c.state.ChunkDataAlmostDone? || c.state.ChunkDataDone? ==>
              StepChunkData(c, ch) != Err(HeaderOverflow)
  {
    hide Unhex;
  }
}
