/** What one header line, and a list of header lines, does to the parser. */
module HttpHeaders {
  import opened Basics
  import opened HttpChars
  import opened HttpControl
  import opened HttpSyntax
  import opened HttpMessage
  import opened HttpSteps
  import opened HttpCodings
  import opened HttpNames
  import opened HttpValues

  /** `gap` is the white space before the value. */
  datatype HeaderLine = HeaderLine(name: string, gap: string, value: string)

  function LineText(h: HeaderLine): string {
    h.name + (":" + h.gap) + h.value + "\r\n"
  }

  predicate IsGap(s: string) {
    forall i :: 0 <= i < |s| ==> s[i] == ' ' || s[i] == '\t'
  }

  // ---------------------------------------------------------------- one line

  /** The fields a new header line starts from: the previous line leaves its flags. */
  function Settle(c: Control): Control {
    if c.state.ValueLws? then FinishHeader(c) else c
  }

  predicate AtLineStart(c: Control) {
    c.state.FieldStart? || c.state.ValueLws? || c.state.DiscardLws?
  }

  /** The request under construction at the start of a line: an empty value is handed on only when
      the byte after its line has been seen. */
  function Pend(p: Parser): Message {
    if p.control.state.DiscardLws? then OnValue(p.message, "") else p.message
  }

  lemma NameFirstStep(c: Control, ch: char)
    requires AtLineStart(c) && Token(ch) != NUL
    ensures StepState(c, ch) ==
            Next(Settle(c).(state := Field, headerState := NameStart(Token(ch)), index := 0),
                 QUIET.(data := FieldData, emptyValue := c.state.DiscardLws?))
  {
    hide NameStart;
  }

  lemma NameFirstFeed(p: Parser, ch: char)
    requires AtLineStart(p.control) && Token(ch) != NUL && p.control.nread + 1 <= MAX_HEADER_SIZE
    ensures Feed1(p, ch) ==
            More(Parser(Settle(p.control).(state := Field, headerState := NameStart(Token(ch)), index := 0,
                                           nread := p.control.nread + 1),
                        OnField(Pend(p), [ch]), p.delivered))
  {
    hide NameStart, OnField, OnValue, Token;
    NameFirstStep(p.control.(nread := p.control.nread + 1), ch);
    FeedOf(p, ch);
    hide StepState;
  }

  function AfterName(c: Control, name: string): Control
    requires |name| > 0
  {
    WithScan(Settle(c), NameScan(name)).(state := Field, nread := c.nread + |name|,
      usesTransferEncoding := Settle(c).usesTransferEncoding || ReachesEncoding(name))
  }

  lemma {:induction false} NameRun(p: Parser, name: string)
    requires AtLineStart(p.control) && |name| > 0 && TokenText(name)
    requires p.control.nread + |name| <= MAX_HEADER_SIZE
    ensures Run(p, name) == More(Parser(AfterName(p.control, name), OnField(Pend(p), name), p.delivered))
  {
    hide Feed1, FieldToken, Settle, NameStart, OnField, Token, Pend;
    var k := |name| - 1;
    assert name == name[..k] + [name[k]];
    if k == 0 {
      TokenTable(name[0]);
      NameFirstFeed(p, name[0]);
      RunOne(p, name[0]);
    } else {
      NameRun(p, name[..k]);
      TokenTable(name[k]);
      FieldFeed(Run(p, name[..k]).parser, name[k]);
      OnDataAppend(Pend(p), FieldData, name[..k], [name[k]]);
    }
  }

  lemma SpaceFeed(p: Parser, ch: char)
    requires p.control.state.DiscardWs? && p.control.nread + 1 <= MAX_HEADER_SIZE && (ch == ' ' || ch == '\t')
    ensures Feed1(p, ch) == More(p.(control := p.control.(nread := p.control.nread + 1)))
  {
    QuietFeed(p, ch, p.control.(nread := p.control.nread + 1));
  }

  lemma ValueFirstFeed(p: Parser, ch: char, c: Control)
    requires p.control.state.DiscardWs? && p.control.nread + 1 <= MAX_HEADER_SIZE
    requires ch != ' ' && ch != '\t' && ch != CR && ch != LF
    requires StepValueStart(p.control.(nread := p.control.nread + 1), ch) == Next(c, QUIET.(data := ValueData))
    ensures Feed1(p, ch) == More(Parser(c, OnValue(p.message, [ch]), p.delivered))
  {
    hide StepValueStart;
    DataFeed(p, ch, c, ValueData);
  }

  lemma LineFeedFeed(p: Parser)
    requires p.control.state.HeaderAlmostDone? && p.control.nread + 1 <= MAX_HEADER_SIZE
    ensures Feed1(p, LF) == More(p.(control := p.control.(state := ValueLws, nread := p.control.nread + 1)))
  {
    QuietFeed(p, LF, p.control.(state := ValueLws, nread := p.control.nread + 1));
  }

  /** The colon and the white space after it. */
  lemma {:induction false} ColonRun(p: Parser, gap: string)
    requires p.control.state.Field? && IsGap(gap) && p.control.nread + 1 + |gap| <= MAX_HEADER_SIZE
    ensures Run(p, ":" + gap) ==
            More(p.(control := p.control.(state := DiscardWs, nread := p.control.nread + 1 + |gap|)))
    decreases |gap|
  {
    hide Feed1, Run;
    if gap == "" {
      FieldEndFeed(p, ':');
      RunOne(p, ':');
      assert ":" + gap == [':'];
    } else {
      var k := |gap| - 1;
      ColonRun(p, gap[..k]);
      SpaceFeed(Run(p, ":" + gap[..k]).parser, gap[k]);
      RunPush(p, ":" + gap[..k], gap[k]);
      assert ":" + gap[..k] + [gap[k]] == ":" + gap;
    }
  }

  /** The colon, the value and the line end, for a value whose first byte leads to `c1`. */
  lemma ValuePartRun(p: Parser, gap: string, value: string, c1: Control)
    requires p.control.state.Field? && p.message.inField && IsGap(gap) && RawText(value)
    requires p.control.nread + 3 + |gap| + |value| <= MAX_HEADER_SIZE
    requires StepValueStart(p.control.(state := DiscardWs, nread := p.control.nread + 2 + |gap|), value[0])
             == Next(c1, QUIET.(data := ValueData))
    requires c1.state.Value? && c1.nread == p.control.nread + 2 + |gap|
    requires ValueFold(ScanOf(c1), c1.contentLength, value[1..]).InValue?
    ensures var v := ValueFold(ScanOf(c1), c1.contentLength, value[1..]);
            Run(p, ":" + gap + value + "\r\n") ==
            More(Parser(AfterValue(c1, v).(state := ValueLws, nread := p.control.nread + 3 + |gap| + |value|),
                        OnValue(p.message, value), p.delivered))
  {
    hide Feed1, Run, StepValueStart, ValueFold, OnValue, AfterValue, ScanOf, IsGap;
    ColonRun(p, gap);
    var front := ":" + gap;
    FirstChar(value);
    hide RawText;
    ValueFirstFeed(Run(p, front).parser, value[0], c1);
    RunPush(p, front, value[0]);
    ValuePartRest(p, front, value, c1);
  }

  lemma ValueRaw(s: string)
    requires ValueText(s)
    ensures RawText(s)
  {
  }

  lemma FirstChar(value: string)
    requires RawText(value)
    ensures value != "" && value[0] != ' ' && value[0] != '\t' && value[0] != CR && value[0] != LF
  {
  }

  lemma ValuePartRest(p: Parser, front: string, value: string, c1: Control)
    requires p.message.inField && RawText(value) && c1.state.Value? && c1.nread + 1 + |value| <= MAX_HEADER_SIZE
    requires Run(p, front + [value[0]]) == More(Parser(c1, OnValue(p.message, [value[0]]), p.delivered))
    requires ValueFold(ScanOf(c1), c1.contentLength, value[1..]).InValue?
    ensures var v := ValueFold(ScanOf(c1), c1.contentLength, value[1..]);
            Run(p, front + value + "\r\n") ==
            More(Parser(AfterValue(c1, v).(state := ValueLws, nread := c1.nread + 1 + |value|),
                        OnValue(p.message, value), p.delivered))
  {
    hide Feed1, Run, ValueFold;
    var s := front + [value[0]];
    var v := ValueFold(ScanOf(c1), c1.contentLength, value[1..]);
    ValueRun(Run(p, s).parser, value[1..]);
    RunJoin(p, s, value[1..]);
    assert s + value[1..] == front + value;
    OnDataAppend(p.message, ValueData, [value[0]], value[1..]);
    assert [value[0]] + value[1..] == value;
    var q := Run(p, front + value).parser;
    ValueEndFeed(q, CR);
    RunPush(p, front + value, CR);
    LineFeedFeed(Run(p, front + value + [CR]).parser);
    RunPush(p, front + value + [CR], LF);
    assert front + value + [CR] + [LF] == front + value + "\r\n";
  }

  /** The line end after white space only: there is no value. */
  lemma NoValueRun(p: Parser, gap: string)
    requires p.control.state.Field? && IsGap(gap) && p.control.nread + 3 + |gap| <= MAX_HEADER_SIZE
    ensures Run(p, ":" + gap + "\r\n") ==
            More(p.(control := p.control.(state := DiscardLws, nread := p.control.nread + 3 + |gap|)))
  {
    hide Feed1, Run;
    ColonRun(p, gap);
    var s := ":" + gap;
    NoValueCrFeed(Run(p, s).parser);
    RunPush(p, s, CR);
    NoValueLfFeed(Run(p, s + [CR]).parser);
    RunPush(p, s + [CR], LF);
    assert s + [CR] + [LF] == s + "\r\n";
  }

  lemma NoValueCrFeed(p: Parser)
    requires p.control.state.DiscardWs? && p.control.nread + 1 <= MAX_HEADER_SIZE
    ensures Feed1(p, CR) == More(p.(control := p.control.(state := DiscardWsAlmostDone, nread := p.control.nread + 1)))
  {
    QuietFeed(p, CR, p.control.(state := DiscardWsAlmostDone, nread := p.control.nread + 1));
  }

  lemma NoValueLfFeed(p: Parser)
    requires p.control.state.DiscardWsAlmostDone? && p.control.nread + 1 <= MAX_HEADER_SIZE
    ensures Feed1(p, LF) == More(p.(control := p.control.(state := DiscardLws, nread := p.control.nread + 1)))
  {
    QuietFeed(p, LF, p.control.(state := DiscardLws, nread := p.control.nread + 1));
  }

  /** The kinds of header line whose effect on the framing and the connection is described here. */
  datatype LineKind = Plain | EmptyLine | LengthLine | ChunkedLine | OtherEncoding | KeepAliveLine | CloseLine
      | OtherConnection | UpgradeLine

  predicate ConnectionHeader(name: string) {
    Lowered(name) == "connection" || Lowered(name) == "proxy-connection"
  }

  /** The name begins like "transfer-encoding". */
  predicate BeginsEncoding(name: string) {
    |name| >= 17 && Lowered(name[..17]) == "transfer-encoding"
  }

  predicate IsLine(h: HeaderLine, k: LineKind) {
    && |h.name| > 0 && TokenText(h.name) && IsGap(h.gap)
    && match k
       case Plain =>
         && !ConnectionHeader(h.name) && Lowered(h.name) != "content-length" && Lowered(h.name) != "upgrade"
         && !BeginsEncoding(h.name) && RawText(h.value)
       case EmptyLine => !BeginsEncoding(h.name) && h.value == ""
       case UpgradeLine => Lowered(h.name) == "upgrade" && RawText(h.value)
       case LengthLine => Lowered(h.name) == "content-length" && h.value != "" && LengthValue(Bare(h.value))
       case ChunkedLine => Lowered(h.name) == "transfer-encoding" && ValueText(h.value) && EndsChunked(h.value)
       case OtherEncoding => Lowered(h.name) == "transfer-encoding" && ValueText(h.value) && !EndsChunked(h.value)
       case KeepAliveLine => ConnectionHeader(h.name) && ValueText(h.value) && IsWord(Bare(h.value), "keep-alive")
       case CloseLine => ConnectionHeader(h.name) && ValueText(h.value) && IsWord(Bare(h.value), "close")
       case OtherConnection =>
         && ConnectionHeader(h.name) && ValueText(h.value)
         && !IsWord(Bare(h.value), "keep-alive") && !IsWord(Bare(h.value), "close")
  }

  /** The end of the value of a Connection header. */
  function ConnectionEnd(value: string, length: uint64): ValueResult
    requires value != ""
  {
    ValueFold(Scan(ConnectionStart(value[0]), 0), length, value[1..])
  }

  /** The end of the value of a Transfer-Encoding header. */
  function EncodingEnd(value: string, length: uint64): ValueResult
    requires value != ""
  {
    ValueFold(Scan(EncodingStart(value[0]), 0), length, value[1..])
  }

  /** Control fields after a header line of kind `k`. */
  function AfterLine(c: Control, h: HeaderLine, k: LineKind): Control
    requires IsLine(h, k)
  {
    var d := Settle(c).(state := ValueLws, nread := c.nread + |LineText(h)|);
    match k
    case Plain => d.(headerState := General, index := 0)
    case UpgradeLine => d.(headerState := General, index := 0, flags := d.flags.(upgrade := true))
    case EmptyLine => WithScan(d, NameScan(h.name)).(state := DiscardLws)
    case LengthLine =>
      LengthPadded(h.value);
      d.(headerState := if h.value[|h.value| - 1] == ' ' then ContentLengthWs else ContentLengthNum, index := 0,
         flags := d.flags.(contentLength := true), contentLength := DecimalValue(Bare(h.value)))
    case ChunkedLine | OtherEncoding =>
      EncodingExactly(h.value, d.contentLength);
      WithScan(d, EncodingEnd(h.value, d.contentLength).scan).(usesTransferEncoding := true)
    case KeepAliveLine | CloseLine | OtherConnection =>
      ConnectionValue(h.value, d.contentLength);
      WithScan(d, ConnectionEnd(h.value, d.contentLength).scan)
  }

  /** The request under construction after a header line. */
  function WithLine(p: Parser, h: HeaderLine, k: LineKind): Message {
    if k.EmptyLine? then OnField(Pend(p), h.name) else OnValue(OnField(Pend(p), h.name), h.value)
  }

  lemma DigitsText(s: string)
    requires s != "" && LengthValue(Bare(s))
    ensures ValueText(s)
  {
    BareFits(s);
  }

  /** Join a name with the rest of its line. */
  lemma JoinLine(p: Parser, h: HeaderLine, c1: Control)
    requires AtLineStart(p.control) && |h.name| > 0 && TokenText(h.name) && IsGap(h.gap) && RawText(h.value)
    requires p.control.nread + |LineText(h)| <= MAX_HEADER_SIZE
    requires var c := AfterName(p.control, h.name);
             var n := c.nread + 2 + |h.gap|;
             StepValueStart(c.(state := DiscardWs, nread := n), h.value[0]) == Next(c1, QUIET.(data := ValueData))
             && c1.state.Value? && c1.nread == n
    requires ValueFold(ScanOf(c1), c1.contentLength, h.value[1..]).InValue?
    ensures var v := ValueFold(ScanOf(c1), c1.contentLength, h.value[1..]);
            Run(p, LineText(h)) ==
            More(Parser(AfterValue(c1, v).(state := ValueLws, nread := p.control.nread + |LineText(h)|),
                        OnValue(OnField(Pend(p), h.name), h.value), p.delivered))
  {
    hide Feed1, Run, StepValueStart, ValueFold, AfterValue, NameScan, Settle, TokenText, RawText, IsGap, Pend;
    NameRun(p, h.name);
    ValuePartRun(Run(p, h.name).parser, h.gap, h.value, c1);
    RunJoin(p, h.name, ":" + h.gap + h.value + "\r\n");
    assert h.name + (":" + h.gap + h.value + "\r\n") == LineText(h);
  }

  /** What a name leaves behind, in terms of the name. */
  lemma NameFacts(name: string)
    requires |name| > 0 && TokenText(name)
    ensures NameScan(name).kind.ConnectionName? <==> ConnectionHeader(name)
    ensures NameScan(name).kind.ContentLengthName? <==> Lowered(name) == "content-length"
    ensures NameScan(name).kind.TransferEncodingName? <==> Lowered(name) == "transfer-encoding"
    ensures NameScan(name).kind.UpgradeName? <==> Lowered(name) == "upgrade"
    ensures IsNameKind(NameScan(name).kind)
    ensures ReachesEncoding(name) <==> BeginsEncoding(name)
    ensures Lowered(name) == "transfer-encoding" ==> BeginsEncoding(name)
    ensures ConnectionHeader(name) || Lowered(name) == "content-length" || Lowered(name) == "upgrade" ==>
              !BeginsEncoding(name)
  {
    hide NameScan, ReachesEncoding, IsNameKind, Lowered, TokenText;
    NameRecognition(name);
    EncodingRecognition(name);
    NamesApart(name);
  }

  lemma NamesApart(name: string)
    ensures Lowered(name) == "transfer-encoding" ==> BeginsEncoding(name)
    ensures ConnectionHeader(name) || Lowered(name) == "content-length" || Lowered(name) == "upgrade" ==>
              !BeginsEncoding(name)
  {
    assert |Lowered(name)| == |name|;
    if |name| == 17 {
      assert name[..17] == name;
    }
  }

  lemma PlainRun(p: Parser, h: HeaderLine)
    requires AtLineStart(p.control) && IsLine(h, Plain) && p.control.nread + |LineText(h)| <= MAX_HEADER_SIZE
    ensures Run(p, LineText(h)) == More(Parser(AfterLine(p.control, h, Plain), WithLine(p, h, Plain), p.delivered))
  {
    hide Run, OnField, OnValue, Settle, Lowered, NameScan, ReachesEncoding, StepValueStart, ValueFold, Pend;
    NameFacts(h.name);
    var c := AfterName(p.control, h.name).(state := DiscardWs, nread := p.control.nread + |h.name| + 2 + |h.gap|);
    var c1 := c.(state := Value, index := 0, headerState := General);
    PlainStart(c, h.value[0]);
    GeneralFold(ScanOf(c1), c1.contentLength, h.value[1..]);
    JoinLine(p, h, c1);
  }

  lemma UpgradeRun(p: Parser, h: HeaderLine)
    requires AtLineStart(p.control) && IsLine(h, UpgradeLine) && p.control.nread + |LineText(h)| <= MAX_HEADER_SIZE
    ensures Run(p, LineText(h)) ==
            More(Parser(AfterLine(p.control, h, UpgradeLine), WithLine(p, h, UpgradeLine), p.delivered))
  {
    hide Run, OnField, OnValue, Settle, Lowered, NameScan, ReachesEncoding, StepValueStart, ValueFold, Pend;
    NameFacts(h.name);
    var c := AfterName(p.control, h.name).(state := DiscardWs, nread := p.control.nread + |h.name| + 2 + |h.gap|);
    var c1 := c.(state := Value, index := 0, flags := c.flags.(upgrade := true), headerState := General);
    UpgradeStart(c, h.value[0]);
    GeneralFold(ScanOf(c1), c1.contentLength, h.value[1..]);
    JoinLine(p, h, c1);
  }

  lemma UpgradeStart(c: Control, ch: char)
    requires IsHeaderState(c.state) && c.headerState.UpgradeName?
    ensures StepValueStart(c, ch) ==
            Next(c.(state := Value, index := 0, flags := c.flags.(upgrade := true), headerState := General),
                 QUIET.(data := ValueData))
  {
  }

  lemma EmptyRun(p: Parser, h: HeaderLine)
    requires AtLineStart(p.control) && IsLine(h, EmptyLine) && p.control.nread + |LineText(h)| <= MAX_HEADER_SIZE
    ensures Run(p, LineText(h)) ==
            More(Parser(AfterLine(p.control, h, EmptyLine), WithLine(p, h, EmptyLine), p.delivered))
  {
    hide Run, OnField, OnValue, Settle, Lowered, NameScan, ReachesEncoding, Pend;
    NameFacts(h.name);
    NameRun(p, h.name);
    NoValueRun(Run(p, h.name).parser, h.gap);
    RunJoin(p, h.name, ":" + h.gap + "\r\n");
    assert h.name + (":" + h.gap + "\r\n") == LineText(h);
  }

  lemma LengthRun(p: Parser, h: HeaderLine)
    requires AtLineStart(p.control) && IsLine(h, LengthLine) && p.control.nread + |LineText(h)| <= MAX_HEADER_SIZE
    requires !Settle(p.control).flags.contentLength
    ensures Run(p, LineText(h)) ==
            More(Parser(AfterLine(p.control, h, LengthLine), WithLine(p, h, LengthLine), p.delivered))
  {
    hide Run, OnField, OnValue, Settle, Lowered, NameScan, ReachesEncoding, ValueFold, Pend, LengthValue, Bare;
    var value := h.value;
    NameFacts(h.name);
    DigitsText(value);
    LengthPadded(value);
    var c := AfterName(p.control, h.name).(state := DiscardWs, nread := p.control.nread + |h.name| + 2 + |h.gap|);
    var c1 := c.(state := Value, index := 0, flags := c.flags.(contentLength := true),
                 contentLength := value[0] as int - '0' as int, headerState := ContentLengthNum);
    JoinLine(p, h, c1);
  }

  predicate OnEncoding(k: LineKind) {
    k.ChunkedLine? || k.OtherEncoding?
  }

  lemma EncodingStep(c: Control, ch: char)
    requires IsHeaderState(c.state) && c.headerState.TransferEncodingName?
    ensures StepValueStart(c, ch) ==
            Next(c.(state := Value, index := 0, headerState := EncodingStart(ch)), QUIET.(data := ValueData))
  {
  }

  lemma EncodingRun(p: Parser, h: HeaderLine, k: LineKind)
    requires AtLineStart(p.control) && OnEncoding(k) && IsLine(h, k)
             && p.control.nread + |LineText(h)| <= MAX_HEADER_SIZE
    ensures Run(p, LineText(h)) == More(Parser(AfterLine(p.control, h, k), WithLine(p, h, k), p.delivered))
  {
    hide Run, OnField, OnValue, Settle, Lowered, NameScan, ReachesEncoding, ValueFold, StepValueStart, Pend,
         EndsChunked;
    NameFacts(h.name);
    var c := AfterName(p.control, h.name).(state := DiscardWs, nread := p.control.nread + |h.name| + 2 + |h.gap|);
    EncodingStep(c, h.value[0]);
    EncodingExactly(h.value, c.contentLength);
    JoinLine(p, h, c.(state := Value, index := 0, headerState := EncodingStart(h.value[0])));
  }

  predicate OnConnection(k: LineKind) {
    k.KeepAliveLine? || k.CloseLine? || k.OtherConnection?
  }

  lemma ConnectionStep(c: Control, ch: char)
    requires IsHeaderState(c.state) && c.headerState.ConnectionName? && FieldByte(ch) && ch != ' '
    ensures StepValueStart(c, ch) ==
            Next(c.(state := Value, index := 0, headerState := ConnectionStart(ch)), QUIET.(data := ValueData))
  {
  }

  lemma ConnectionRun(p: Parser, h: HeaderLine, k: LineKind)
    requires AtLineStart(p.control) && OnConnection(k) && IsLine(h, k)
             && p.control.nread + |LineText(h)| <= MAX_HEADER_SIZE
    ensures Run(p, LineText(h)) == More(Parser(AfterLine(p.control, h, k), WithLine(p, h, k), p.delivered))
  {
    hide Run, OnField, OnValue, Settle, Lowered, NameScan, ReachesEncoding, ValueFold, StepValueStart, Pend, Bare,
         IsWord;
    NameFacts(h.name);
    var c := AfterName(p.control, h.name).(state := DiscardWs, nread := p.control.nread + |h.name| + 2 + |h.gap|);
    ConnectionStep(c, h.value[0]);
    ConnectionValue(h.value, c.contentLength);
    JoinLine(p, h, c.(state := Value, index := 0, headerState := ConnectionStart(h.value[0])));
  }

  /** A header line is read as its kind says; its name and its value are handed on unchanged, an
      empty value with the byte after the line. */
  lemma LineRun(p: Parser, h: HeaderLine, k: LineKind)
    requires AtLineStart(p.control) && IsLine(h, k)
    requires k.LengthLine? ==> !Settle(p.control).flags.contentLength
    requires p.control.nread + |LineText(h)| <= MAX_HEADER_SIZE
    ensures var r := Run(p, LineText(h));
            && r == More(Parser(AfterLine(p.control, h, k), WithLine(p, h, k), p.delivered))
            && AtLineStart(r.parser.control) && Pend(r.parser) == OnValue(OnField(Pend(p), h.name), h.value)
  {
    hide Run, OnField, OnValue, IsLine;
    match k {
      case Plain => PlainRun(p, h);
      case EmptyLine => EmptyRun(p, h); NoValue(h);
      case UpgradeLine => UpgradeRun(p, h);
      case LengthLine => LengthRun(p, h);
      case ChunkedLine | OtherEncoding => EncodingRun(p, h, k);
      case KeepAliveLine | CloseLine | OtherConnection => ConnectionRun(p, h, k);
    }
  }

  lemma NoValue(h: HeaderLine)
    requires IsLine(h, EmptyLine)
    ensures h.value == ""
  {
  }

  lemma PlainStart(c: Control, ch: char)
    requires IsHeaderState(c.state) && IsNameKind(c.headerState)
    requires !c.headerState.UpgradeName? && !c.headerState.TransferEncodingName? && !c.headerState.ContentLengthName?
             && !c.headerState.ConnectionName?
    ensures StepValueStart(c, ch) ==
            Next(c.(state := Value, index := 0, headerState := General), QUIET.(data := ValueData))
  {
  }
}
