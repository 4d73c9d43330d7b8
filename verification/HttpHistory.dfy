/** What the parser's fields say about the header and the body that it has rebuilt so far, in every
    state that any input can reach. */
module HttpHistory {
  import opened Basics
  import opened HttpChars
  import opened HttpMethods
  import opened HttpControl
  import opened HttpSyntax
  import opened HttpMessage
  import opened HttpNames
  import opened HttpInvariants
  import HttpValues

  predicate IsConnection(l: string) {
    l == "connection" || l == "proxy-connection"
  }

  /** Bytes that leave the value of a Connection header undecided: or-ing a NUL with 0x20 gives a space. */
  predicate Blank(v: string) {
    forall i :: 0 <= i < |v| ==> v[i] == NUL || v[i] == ' '
  }

  /** The length that a header declares, if it is a Content-Length. */
  function LengthIn(name: string, value: string): Option<nat> {
    if Lowered(name) == "content-length" && value != "" then Some(DecimalValue(value)) else None
  }

  /** The length declared by the last Content-Length of a list of headers. */
  function Declared(headers: seq<(string, string)>): Option<nat> {
    if headers == [] then None
    else
      var k := |headers| - 1;
      var n := LengthIn(headers[k].0, headers[k].1);
      if n.Some? then n else Declared(headers[..k])
  }

  /** The same with the header that is still to be filed. */
  function DeclaredBy(m: Message): Option<nat> {
    var n := LengthIn(m.field, m.value);
    if n.Some? then n else Declared(m.headers)
  }

  predicate HasEncoding(headers: seq<(string, string)>) {
    exists h :: h in headers && Lowered(h.0) == "transfer-encoding"
  }

  predicate EncodingSeen(m: Message) {
    HasEncoding(m.headers) || (Lowered(m.field) == TRANSFER_ENCODING && m.value != "")
  }

  /** Values that are being matched against "chunked". */
  predicate OnCoding(k: HeaderState) {
    k.TokenStart? || k.MatchingChunked? || k.EncodingToken? || k.ChunkedValue?
  }

  predicate OnLength(k: HeaderState) {
    k.ContentLengthNum? || k.ContentLengthWs?
  }

  // ---------------------------------------------------------------- what the fields tell

  /** In the header block: the length is exactly the declared one. */
  predicate Lengths(c: Control, m: Message) {
    && DeclaredBy(m) == (if c.flags.contentLength then Some(c.contentLength) else None)
    && (!c.flags.contentLength && !c.flags.trailing ==> c.contentLength == NO_LENGTH)
    && (c.flags.chunked ==> c.usesTransferEncoding && EncodingSeen(m))
    && (c.flags.trailing ==> HasEncoding(m.headers))
    && (!c.flags.trailing ==> m.body == "")
    && (m.field == "" ==> m.value == "")
  }

  /** A header name has been begun or read; its value has not. */
  predicate NameTold(c: Control, m: Message) {
    && m.inField && m.value == "" && m.field != "" && Fits(Lowered(m.field), ScanOf(c))
    && (c.headerState.TransferEncodingName? ==> c.usesTransferEncoding)
  }

  /** A header value has been begun or read. */
  predicate ValueTold(c: Control, m: Message) {
    var l := Lowered(m.field);
    && !m.inField && m.value != "" && m.field != ""
    && (c.headerState.ConnectionName? <==> IsConnection(l) && Blank(m.value))
    && (OnLength(c.headerState) <==> l == CONTENT_LENGTH)
    && (OnCoding(c.headerState) ==> l == TRANSFER_ENCODING && c.usesTransferEncoding)
  }

  predicate InName(s: State) {
    s.Field? || s.DiscardWs? || s.DiscardWsAlmostDone? || s.DiscardLws?
  }

  predicate HeadTold(c: Control, m: Message) {
    && Lengths(c, m)
    && (InName(c.state) ==> NameTold(c, m))
    && (AfterValueStart(c.state) ==> ValueTold(c, m))
    && (c.state.FieldStart? || c.state.HeadersAlmostDone? ==> !m.inField)
  }

  /** Before the header block nothing has been declared. */
  predicate LineTold(c: Control, m: Message) {
    && c.flags == NO_FLAGS && !c.usesTransferEncoding && c.contentLength == NO_LENGTH
    && m.headers == [] && m.field == "" && m.value == "" && m.body == "" && !m.inField
  }

  /** Behind the header block everything has been filed. */
  predicate Filed(m: Message) {
    m.field == "" && m.value == "" && !m.inField
  }

  /** In a body: what is left of it, together with what has been read, is what was declared. */
  predicate BodyTold(c: Control, m: Message) {
    && Filed(m)
    && if c.state.BodyIdentity? then Declared(m.headers) == Some(|m.body| + c.contentLength)
       else !c.flags.contentLength && !c.flags.trailing && c.usesTransferEncoding
            && Declared(m.headers) == None && HasEncoding(m.headers)
  }

  predicate InLine(s: State) {
    s.ReqMethod? || s.SpacesBeforeUrl? || IsUrlState(s) || IsVersionState(s)
  }

  predicate Told(c: Control, m: Message) {
    && (InLine(c.state) ==> LineTold(c, m))
    && (IsHeaderState(c.state) ==> HeadTold(c, m))
    && (IsBodyState(c.state) ==> BodyTold(c, m))
  }

  /** A request without transfer coding has a body of exactly the declared length; none is declared
      means none is there. */
  predicate Framed(r: Request) {
    r.upgrade || HasEncoding(r.headers) ||
    |r.body| == if Declared(r.headers).Some? then Declared(r.headers).value else 0
  }

  /** What a step hands on. */
  predicate StepTold(r: StepResult, m: Message, ch: char) {
    match r
    case Next(c, e) =>
      var m' := Callbacks(m, e, ch, c);
      Told(c, m') && (e.complete ==> Framed(ToRequest(m', c)))
    case Halt(c, e) => e.complete ==> Framed(ToRequest(Callbacks(m, e, ch, c), c))
    case Err(_) => true
  }

  // ---------------------------------------------------------------- lists of headers

  lemma DeclaredSnoc(headers: seq<(string, string)>, name: string, value: string)
    ensures Declared(headers + [(name, value)]) ==
            if LengthIn(name, value).Some? then LengthIn(name, value) else Declared(headers)
    ensures HasEncoding(headers + [(name, value)]) <==> HasEncoding(headers) || Lowered(name) == TRANSFER_ENCODING
  {
    var t := headers + [(name, value)];
    assert t[..|headers|] == headers;
    assert (name, value) in t;
    assert forall h :: h in headers ==> h in t;
  }

  /** Filing the pending header changes neither what is declared nor whether a coding was seen. */
  lemma FieldDeclares(m: Message, s: string)
    requires !m.inField && |s| == 1 && (m.field == "" ==> m.value == "")
    ensures var m' := OnField(m, s);
            && DeclaredBy(m') == DeclaredBy(m) && (EncodingSeen(m) ==> EncodingSeen(m'))
            && (HasEncoding(m.headers) ==> HasEncoding(m'.headers))
            && m'.inField && m'.value == "" && m'.field == s && m'.body == m.body
  {
    DeclaredSnoc(m.headers, m.field, m.value);
    assert |Lowered(s)| == 1;
  }

  // ---------------------------------------------------------------- request line

  lemma StartTold(c: Control, m: Message, ch: char)
    requires c.state.StartReq?
    ensures StepTold(StepStart(c, ch), m, ch)
  {
    hide FirstGuess;
  }

  lemma MethodTold(c: Control, m: Message, ch: char)
    requires c.state.ReqMethod? && Told(c, m)
    ensures StepTold(StepMethod(c, ch), m, ch)
  {
    hide Refine;
  }

  /** Only the state, the version and the URL change before the header block. */
  lemma LineKept(c: Control, m: Message, d: Control, e: Effect, ch: char)
    requires LineTold(c, m) && (InLine(d.state) || d.state.FieldStart?)
    requires d == c.(state := d.state, major := d.major, minor := d.minor)
    requires e == QUIET || e == QUIET.(data := UrlData)
    ensures StepTold(Next(d, e), m, ch)
  {
    assert |Lowered("")| == 0;
  }

  lemma UrlTold(c: Control, m: Message, ch: char)
    requires (c.state.SpacesBeforeUrl? || IsUrlState(c.state)) && Told(c, m)
    ensures StepTold(StepUrl(c, ch), m, ch)
  {
    hide LineTold, HeadTold, BodyTold;
    UrlNextState(if c.state.SpacesBeforeUrl? && c.verb.Connect? then ServerStart else c.state, ch);
    if StepUrl(c, ch).Next? {
      hide UrlNext, StepTold, Told;
      LineKept(c, m, StepUrl(c, ch).control, StepUrl(c, ch).effect, ch);
    }
    hide StepUrl;
  }

  lemma VersionTold(c: Control, m: Message, ch: char)
    requires IsVersionState(c.state) && Told(c, m)
    ensures StepTold(StepVersion(c, ch), m, ch)
  {
    hide LineTold, HeadTold, BodyTold;
    VersionFields(c, ch);
    if StepVersion(c, ch).Next? {
      VersionQuiet(c, ch);
      LineKept(c, m, StepVersion(c, ch).control, QUIET, ch);
    }
    hide StepVersion;
  }

  lemma VersionQuiet(c: Control, ch: char)
    requires IsVersionState(c.state) && StepVersion(c, ch).Next?
    ensures StepVersion(c, ch).effect == QUIET
  {
  }

  // ---------------------------------------------------------------- end of the header block

  /** Filing the last header. */
  lemma LastDeclares(m: Message, c: Control)
    requires !m.inField && (m.field == "" ==> m.value == "")
    ensures var m' := OnHeadersComplete(m, c);
            && Filed(m') && m'.body == m.body && Declared(m'.headers) == DeclaredBy(m)
            && (EncodingSeen(m) ==> HasEncoding(m'.headers))
  {
    DeclaredSnoc(m.headers, m.field, m.value);
    assert |Lowered("")| == 0;
  }

  /** The decision on the body. */
  lemma BodyStartTold(c: Control, m: Message, ch: char)
    requires IsHeaderState(c.state) && Lengths(c, m) && !m.inField && !c.flags.trailing
    requires c.flags.contentLength ==> c.contentLength < NO_LENGTH && !c.usesTransferEncoding
    ensures StepTold(BodyStart(c), m, ch)
  {
    hide DeclaredBy, Declared, EncodingSeen, HasEncoding, OnHeadersComplete, Lowered;
    if BodyStart(c).Next? {
      LastDeclares(m, BodyStart(c).control);
    }
  }

  lemma EndTold(c: Control, m: Message, ch: char)
    requires IsHeaderState(c.state) && Lengths(c, m) && !m.inField && Holds(c, 1)
    ensures StepTold(EndOfHeaders(c, ch), m, ch)
  {
    hide Holds, DeclaredBy, Declared, EncodingSeen, HasEncoding, StepTold, BodyStart;
    LengthKnown(c);
    if ch == LF && c.flags.trailing {
      TrailersTold(c, m, ch);
    } else if ch == LF && !(c.usesTransferEncoding && c.flags.contentLength) {
      BodyStartTold(c.(upgrade := c.flags.upgrade || c.verb.Connect?), m, ch);
    } else {
      ErrorTold(EndOfHeaders(c, ch), m, ch);
    }
  }

  lemma ErrorTold(r: StepResult, m: Message, ch: char)
    requires r.Err?
    ensures StepTold(r, m, ch)
  {
  }

  lemma TrailersTold(c: Control, m: Message, ch: char)
    requires HasEncoding(m.headers)
    ensures StepTold(Next(c.(state := StartReq), QUIET.(complete := true)), m, ch)
  {
    hide HasEncoding, Declared;
  }

  lemma LengthKnown(c: Control)
    requires Holds(c, 1)
    ensures c.flags.contentLength ==> c.contentLength < NO_LENGTH
  {
  }

  // ---------------------------------------------------------------- header lines

  /** A byte where a header line may start. */
  lemma FieldStartTold(c: Control, m: Message, ch: char)
    requires IsHeaderState(c.state) && Lengths(c, m) && !m.inField && Holds(c, 1)
    ensures StepTold(StepFieldStart(c, ch), m, ch)
  {
    hide Holds, Token, StepTold, Lengths, EndOfHeaders;
    if ch == CR {
      BlockEndTold(c, m, ch);
    } else if ch == LF {
      EndTold(c, m, ch);
    } else if Token(ch) != NUL {
      NameBegun(c, m, ch);
    } else {
      ErrorTold(StepFieldStart(c, ch), m, ch);
    }
  }

  lemma BlockEndTold(c: Control, m: Message, ch: char)
    requires Lengths(c, m) && !m.inField
    ensures StepTold(Next(c.(state := HeadersAlmostDone), QUIET), m, ch)
  {
    hide DeclaredBy, EncodingSeen, HasEncoding;
  }

  lemma NameBegun(c: Control, m: Message, ch: char)
    requires Lengths(c, m) && !m.inField && Token(ch) != NUL
    ensures var d := c.(index := 0, headerState := NameStart(Token(ch)), state := Field);
            StepTold(Next(d, QUIET.(data := FieldData)), m, ch)
  {
    hide DeclaredBy, EncodingSeen, HasEncoding, OnField, Fits, Token;
    FieldDeclares(m, [ch]);
    FitsStart(Token(ch));
    TokenTable(ch);
    assert Lowered([ch]) == [Token(ch)];
  }

  lemma FieldTold(c: Control, m: Message, ch: char)
    requires c.state.Field? && HeadTold(c, m)
    ensures StepTold(StepField(c, ch), m, ch)
  {
    hide Fits, FieldToken, Token, Declared, HasEncoding;
    if Token(ch) != NUL {
      FitsNext(Lowered(m.field), ScanOf(c), ch);
      TokenTable(ch);
      assert Lowered(m.field + [ch]) == Lowered(m.field) + [Token(ch)];
    }
  }

  // ---------------------------------------------------------------- first byte of a value

  /** What the first byte of a value makes of a name. */
  lemma NameStarts(c: Control, ch: char)
    requires IsHeaderState(c.state) && HttpNames.IsNameKind(c.headerState) && ch != ' ' && StepValueStart(c, ch).Next?
    ensures var d, k := StepValueStart(c, ch).control, c.headerState;
            && (d.headerState.ConnectionName? <==> k.ConnectionName? && ch == NUL)
            && (OnLength(d.headerState) <==> k.ContentLengthName?)
            && (OnCoding(d.headerState) ==> k.TransferEncodingName?)
            && (k.ContentLengthName? ==> IsNum(ch) && d.flags == c.flags.(contentLength := true)
                                         && d.contentLength == ch as int - '0' as int)
            && (!k.ContentLengthName? ==> d.contentLength == c.contentLength
                                          && d.flags.(upgrade := false) == c.flags.(upgrade := false))
            && d.usesTransferEncoding == c.usesTransferEncoding && d.state.Value?
            && StepValueStart(c, ch).effect == QUIET.(data := ValueData)
  {
  }

  /** A value that has been begun leaves what is declared to the header that it belongs to. */
  lemma ValueDeclares(c: Control, m: Message, ch: char)
    requires Lengths(c, m) && NameTold(c, m)
    ensures var m' := OnValue(m, [ch]);
            && m'.value == [ch] && m'.field == m.field && m'.headers == m.headers && m'.body == m.body && !m'.inField
            && DeclaredBy(m') ==
               (if Lowered(m.field) == CONTENT_LENGTH then Some(DecimalValue([ch])) else DeclaredBy(m))
            && (EncodingSeen(m) ==> EncodingSeen(m'))
  {
  }

  lemma OneDigit(ch: char)
    requires IsNum(ch)
    ensures DecimalValue([ch]) == ch as int - '0' as int
  {
    assert [ch][..0] == "";
  }

  /** A value whose first byte has the effect on the fields that its name calls for. */
  lemma ValueBegun(c: Control, m: Message, d: Control, ch: char)
    requires Lengths(c, m) && NameTold(c, m) && d.state.Value? && ch != ' '
    requires var l := Lowered(m.field);
             && (d.headerState.ConnectionName? <==> IsConnection(l) && ch == NUL)
             && (OnLength(d.headerState) <==> l == CONTENT_LENGTH)
             && (OnCoding(d.headerState) ==> l == TRANSFER_ENCODING && c.usesTransferEncoding)
             && (if l == CONTENT_LENGTH
                 then d.flags == c.flags.(contentLength := true) && d.contentLength == DecimalValue([ch])
                 else d.flags.(upgrade := false) == c.flags.(upgrade := false) && d.contentLength == c.contentLength)
             && d.usesTransferEncoding == c.usesTransferEncoding
    ensures StepTold(Next(d, QUIET.(data := ValueData)), m, ch)
  {
    hide Fits, DeclaredBy, EncodingSeen, HasEncoding, OnValue, DecimalValue;
    ValueDeclares(c, m, ch);
    assert [ch][0] == ch && (Blank([ch]) <==> ch == NUL);
  }

  lemma FirstTold(c: Control, m: Message, ch: char)
    requires IsHeaderState(c.state) && Lengths(c, m) && NameTold(c, m) && ch != ' '
    ensures StepTold(StepValueStart(c, ch), m, ch)
  {
    FitsMeans(Lowered(m.field), ScanOf(c));
    hide Fits, StepValueStart, Lengths, DecimalValue, StepTold, Lowered;
    if StepValueStart(c, ch).Next? {
      NameStarts(c, ch);
      if IsNum(ch) {
        OneDigit(ch);
      }
      ValueBegun(c, m, StepValueStart(c, ch).control, ch);
    } else {
      NoHalt(c, ch);
      ErrorTold(StepValueStart(c, ch), m, ch);
    }
  }

  lemma NoHalt(c: Control, ch: char)
    requires IsHeaderState(c.state)
    ensures !StepValueStart(c, ch).Halt?
  {
  }

  // ---------------------------------------------------------------- further bytes of a value

  /** What a further byte of a value makes of the matching state and the length. */
  lemma ByteScan(h: Scan, length: uint64, ch: char)
    requires !h.kind.ContentLengthName? && ValueByte(h, length, ch).InValue?
    ensures var v := ValueByte(h, length, ch);
            && !h.kind.ConnectionName? && !v.scan.kind.ConnectionName?
            && (OnLength(v.scan.kind) <==> OnLength(h.kind)) && (OnCoding(v.scan.kind) ==> OnCoding(h.kind))
            && (if OnLength(h.kind) && IsNum(ch) then v.contentLength == length * 10 + (ch as int - '0' as int)
                else v.contentLength == length)
  {
  }

  lemma DecimalMore(s: string, ch: char)
    ensures DecimalValue(s + [ch]) ==
            if IsNum(ch) then DecimalValue(s) * 10 + (ch as int - '0' as int) else DecimalValue(s)
  {
    assert (s + [ch])[..|s|] == s;
  }

  /** A byte more of a value that is still to be filed. */
  lemma MoreDeclares(m: Message, ch: char)
    requires !m.inField && m.value != ""
    ensures var m' := OnValue(m, [ch]);
            && m' == m.(value := m.value + [ch])
            && DeclaredBy(m') == (if Lowered(m.field) == CONTENT_LENGTH then Some(DecimalValue(m.value + [ch]))
                                  else DeclaredBy(m))
            && (EncodingSeen(m) ==> EncodingSeen(m'))
    ensures Lowered(m.field) == CONTENT_LENGTH ==> DeclaredBy(m) == Some(DecimalValue(m.value))
    ensures Blank(m.value + [ch]) <==> Blank(m.value) && (ch == NUL || ch == ' ')
  {
    var t := m.value + [ch];
    assert forall i :: 0 <= i < |m.value| ==> t[i] == m.value[i];
    assert t[|m.value|] == ch;
  }

  /** A value that goes on keeps its account. */
  lemma ValueMore(c: Control, m: Message, d: Control, ch: char)
    requires Lengths(c, m) && ValueTold(c, m) && d.state.Value?
    requires d.flags.(upgrade := false) == c.flags.(upgrade := false)
             && d.usesTransferEncoding == c.usesTransferEncoding
    requires d.headerState.ConnectionName? <==> c.headerState.ConnectionName? && (ch == NUL || ch == ' ')
    requires OnLength(d.headerState) <==> OnLength(c.headerState)
    requires OnCoding(d.headerState) ==> OnCoding(c.headerState)
    requires if OnLength(c.headerState) && IsNum(ch)
             then d.contentLength == c.contentLength * 10 + (ch as int - '0' as int)
             else d.contentLength == c.contentLength
    ensures StepTold(Next(d, QUIET.(data := ValueData)), m, ch)
  {
    hide DeclaredBy, EncodingSeen, HasEncoding, OnValue, DecimalValue, Blank;
    MoreDeclares(m, ch);
    DecimalMore(m.value, ch);
  }

  lemma ValueByteTold(c: Control, m: Message, ch: char)
    requires c.state.Value? && HeadTold(c, m) && !c.headerState.ContentLengthName?
    ensures StepTold(StepValue(c, ch), m, ch)
  {
    hide ValueByte, Lengths, ValueTold;
    var v := ValueByte(ScanOf(c), c.contentLength, ch);
    if ch == CR || ch == LF {
      ValueEnds(c, m, if ch == CR then HeaderAlmostDone else ValueLws, ch);
    } else if v.InValue? {
      ByteScan(ScanOf(c), c.contentLength, ch);
      NotConnection(c, m);
      ValueMore(c, m, WithScan(c, v.scan).(contentLength := v.contentLength), ch);
      hide StepTold;
    }
  }

  lemma NotConnection(c: Control, m: Message)
    requires HeadTold(c, m) && c.state.Value?
    ensures Lengths(c, m) && ValueTold(c, m)
  {
  }

  /** The line end of a value changes nothing but the state. */
  lemma ValueEnds(c: Control, m: Message, s: State, ch: char)
    requires HeadTold(c, m) && AfterValueStart(c.state) && AfterValueStart(s) && !s.Value?
    ensures StepTold(Next(c.(state := s), QUIET), m, ch)
  {
    hide DeclaredBy, EncodingSeen, HasEncoding, Blank;
  }

  /** A continuation line. */
  lemma FoldStarts(c: Control, ch: char)
    requires IsHeaderState(c.state) && (ch == ' ' || ch == '\t')
    requires !c.headerState.ContentLengthName? && !c.headerState.ContentLengthNum?
    requires !c.headerState.TransferEncodingName?
    ensures var r := StepValueStart(c, ch);
            && r.Next? && r.effect == QUIET.(data := ValueData) && r.control.state.Value?
            && r.control.flags.(upgrade := false) == c.flags.(upgrade := false)
            && r.control.usesTransferEncoding == c.usesTransferEncoding
            && r.control.contentLength == c.contentLength
            && (r.control.headerState.ConnectionName? <==> c.headerState.ConnectionName? && ch == ' ')
            && (OnLength(r.control.headerState) <==> OnLength(c.headerState))
            && (OnCoding(r.control.headerState) ==> OnCoding(c.headerState))
  {
    FoldShape(c, ch);
    hide StepValueStart;
  }

  function FoldKind(k: HeaderState, ch: char): HeaderState {
    if k.TokenStart? || k.ContentLengthWs? || (k.ConnectionName? && ch == ' ') then k else General
  }

  lemma FoldShape(c: Control, ch: char)
    requires IsHeaderState(c.state) && (ch == ' ' || ch == '\t')
    requires !c.headerState.ContentLengthName? && !c.headerState.TransferEncodingName?
    ensures StepValueStart(c, ch) ==
            Next(c.(state := Value, index := 0, headerState := FoldKind(c.headerState, ch),
                    flags := if c.headerState.UpgradeName? then c.flags.(upgrade := true) else c.flags),
                 QUIET.(data := ValueData))
  {
    Blanks();
    hide Lower;
  }

  lemma Blanks()
    ensures Lower(' ') == ' ' && Lower('\t') == ')'
  {
  }

  /** The byte after a value's line end: a continuation, or the value is finished. */
  lemma FoldTold(c: Control, m: Message, ch: char)
    requires c.state.ValueLws? && HeadTold(c, m) && Holds(c, 1)
    ensures StepTold(StepValueLws(c, ch), m, ch)
  {
    hide Holds, StepTold, Lengths, ValueTold, StepValueStart, StepFieldStart;
    ValueLwsTold(c, m);
    if ch == ' ' || ch == '\t' {
      var b := if c.headerState.ContentLengthNum? then c.(headerState := ContentLengthWs) else c;
      FoldStarts(b, ch);
      ValueMore(c, m, StepValueStart(b, ch).control, ch);
    } else {
      FinishTold(c, m);
      FieldStartTold(FinishHeader(c), m, ch);
    }
  }

  lemma ValueLwsTold(c: Control, m: Message)
    requires c.state.ValueLws? && HeadTold(c, m) && Holds(c, 1)
    ensures Lengths(c, m) && ValueTold(c, m)
    ensures !c.headerState.ContentLengthName? && !c.headerState.TransferEncodingName?
  {
  }

  /** A finished value leaves its flags. */
  lemma FinishTold(c: Control, m: Message)
    requires c.state.ValueLws? && Lengths(c, m) && ValueTold(c, m) && Holds(c, 1)
    ensures Lengths(FinishHeader(c), m) && !m.inField && Holds(FinishHeader(c), 1)
            && IsHeaderState(FinishHeader(c).state)
  {
    hide Declared, HasEncoding, Blank, Holds, DeclaredBy;
    FinishHolds(c);
  }

  /** A line without a value hands on the empty value with the byte after it. */
  lemma EmptyTold(c: Control, m: Message, ch: char)
    requires c.state.DiscardLws? && HeadTold(c, m) && Holds(c, 1) && ch != ' ' && ch != '\t'
    ensures StepTold(StepDiscardLws(c, ch), m, ch)
  {
    hide Holds, StepFieldStart, Lengths;
    var m1 := OnValue(m, "");
    NoValueTold(c, m);
    FieldStartTold(c, m1, ch);
    var r := StepFieldStart(c, ch);
    if r.Next? {
      assert !r.effect.begin && !r.effect.emptyValue by {
        StartEffect(c, ch);
      }
    } else if r.Halt? {
      assert !r.effect.begin && !r.effect.emptyValue by {
        StartEffect(c, ch);
      }
    }
    hide Told, Framed, OnField, OnValue, OnHeadersComplete;
  }

  lemma StartEffect(c: Control, ch: char)
    requires IsHeaderState(c.state) && !StepFieldStart(c, ch).Err?
    ensures !StepFieldStart(c, ch).effect.begin && !StepFieldStart(c, ch).effect.emptyValue
  {
  }

  lemma NoValueTold(c: Control, m: Message)
    requires c.state.DiscardLws? && HeadTold(c, m)
    ensures Lengths(c, OnValue(m, "")) && !OnValue(m, "").inField
  {
    hide Declared, HasEncoding;
  }

  /** A byte that only moves between the states of a name. */
  lemma NameKept(c: Control, m: Message, s: State, ch: char)
    requires HeadTold(c, m) && InName(c.state) && InName(s) && !s.Field?
    ensures StepTold(Next(c.(state := s), QUIET), m, ch)
  {
    hide DeclaredBy, EncodingSeen, HasEncoding, Fits;
  }

  lemma DiscardWsTold(c: Control, m: Message, ch: char)
    requires c.state.DiscardWs? && HeadTold(c, m)
    ensures StepTold(StepDiscardWs(c, ch), m, ch)
  {
    hide StepTold, Lengths, NameTold, StepValueStart;
    if ch == ' ' || ch == '\t' {
      NameKept(c, m, DiscardWs, ch);
      assert c.(state := DiscardWs) == c;
    } else if ch == CR {
      NameKept(c, m, DiscardWsAlmostDone, ch);
    } else if ch == LF {
      NameKept(c, m, DiscardLws, ch);
    } else {
      FirstTold(c, m, ch);
    }
  }

  lemma HeaderTold(c: Control, m: Message, ch: char)
    requires IsHeaderState(c.state) && HeadTold(c, m) && Holds(c, 1)
    ensures StepTold(StepHeader(c, ch), m, ch)
  {
    hide StepTold, Lengths, NameTold, ValueTold, StepFieldStart, StepField, StepValue, StepValueLws, EndOfHeaders,
         Holds;
    if c.state.FieldStart? {
      FieldStartTold(c, m, ch);
    } else if c.state.Field? {
      FieldTold(c, m, ch);
    } else if c.state.DiscardWs? {
      DiscardWsTold(c, m, ch);
    } else if c.state.DiscardLws? && ch != ' ' && ch != '\t' {
      EmptyTold(c, m, ch);
    } else if c.state.Value? {
      NoLengthName(c);
      ValueByteTold(c, m, ch);
    } else if c.state.ValueLws? {
      FoldTold(c, m, ch);
    } else if c.state.HeadersAlmostDone? {
      EndTold(c, m, ch);
    } else if c.state.DiscardLws? {
      NameKept(c, m, DiscardWs, ch);
    } else if ch != LF {
      ErrorTold(StepHeader(c, ch), m, ch);
    } else if c.state.DiscardWsAlmostDone? {
      NameKept(c, m, DiscardLws, ch);
    } else {
      ValueEnds(c, m, ValueLws, ch);
    }
  }

  lemma NoLengthName(c: Control)
    requires c.state.Value? && Holds(c, 1)
    ensures !c.headerState.ContentLengthName?
  {
  }

  // ---------------------------------------------------------------- bodies

  lemma IdentityTold(c: Control, m: Message, ch: char)
    requires c.state.BodyIdentity? && BodyTold(c, m)
    ensures StepTold(StepIdentity(c), m, ch)
  {
    hide Declared, HasEncoding;
  }

  /** A byte of a chunk-size line only counts and moves on; after the last chunk the trailers begin. */
  lemma ChunkLineFields(c: Control, ch: char)
    requires IsChunkLineState(c.state)
    ensures !StepChunkLine(c, ch).Halt?
    ensures StepChunkLine(c, ch).Next? ==>
              var d := StepChunkLine(c, ch).control;
              && d.usesTransferEncoding == c.usesTransferEncoding && StepChunkLine(c, ch).effect == QUIET
              && (if d.state.FieldStart? then d.flags == c.flags.(trailing := true)
                  else (IsChunkLineState(d.state) || d.state.ChunkData?) && d.flags == c.flags)
  {
    hide Unhex;
  }

  lemma ChunkLineTold(c: Control, m: Message, ch: char)
    requires IsChunkLineState(c.state) && BodyTold(c, m)
    ensures StepTold(StepChunkLine(c, ch), m, ch)
  {
    hide Declared, HasEncoding, StepChunkLine;
    ChunkLineFields(c, ch);
    assert |Lowered(m.field)| == 0;
  }

  lemma ChunkDataTold(c: Control, m: Message, ch: char)
    requires c.state.ChunkData? || c.state.ChunkDataAlmostDone? || c.state.ChunkDataDone?
    requires BodyTold(c, m)
    ensures StepTold(StepChunkData(c, ch), m, ch)
  {
    hide Declared, HasEncoding;
  }

  // ---------------------------------------------------------------- all states

  lemma StateTold(c: Control, m: Message, ch: char)
    requires !c.state.Dead? && Told(c, m) && (if ParsingHeader(c.state) then Holds(c, 1) else Holds(c, 0))
    ensures StepTold(StepState(c, ch), m, ch)
  {
    hide StepTold, LineTold, HeadTold, BodyTold, Holds, StepStart, StepMethod, StepUrl, StepVersion, StepHeader,
         StepIdentity, StepChunkLine, StepChunkData;
    if c.state.StartReq? {
      StartTold(c, m, ch);
    } else if c.state.ReqMethod? {
      MethodTold(c, m, ch);
    } else if c.state.SpacesBeforeUrl? || IsUrlState(c.state) {
      UrlTold(c, m, ch);
    } else if IsVersionState(c.state) {
      VersionTold(c, m, ch);
    } else if IsHeaderState(c.state) {
      HeaderTold(c, m, ch);
    } else if c.state.BodyIdentity? {
      IdentityTold(c, m, ch);
    } else if IsChunkLineState(c.state) {
      ChunkLineTold(c, m, ch);
    } else {
      ChunkDataTold(c, m, ch);
    }
  }

  lemma NotDead(c: Control)
    requires Inv(c)
    ensures !c.state.Dead?
  {
  }

  /** Counting a byte changes nothing that is told. */
  lemma CountTold(c: Control, m: Message, n: nat)
    requires Told(c, m)
    ensures Told(c.(nread := n), m)
  {
    hide DeclaredBy, Declared, EncodingSeen, HasEncoding, Fits, Blank;
  }

  ghost predicate AllFramed(rs: seq<Request>) {
    forall r :: r in rs ==> Framed(r)
  }

  /** The account of a whole outcome: what the fields tell, and what has been handed on. */
  ghost predicate OutcomeTold(o: Outcome) {
    match o
    case More(p) => Told(p.control, p.message) && AllFramed(p.delivered)
    case Failed(_, d) => AllFramed(d)
    case Upgraded(_, d) => AllFramed(d)
  }

  lemma FeedTold(p: Parser, ch: char)
    requires Inv(p.control) && Told(p.control, p.message) && AllFramed(p.delivered)
    ensures OutcomeTold(Feed1(p, ch))
  {
    hide Told, Framed, Holds, StepState, Callbacks, ToRequest;
    var c := p.control;
    NotDead(c);
    if ParsingHeader(c.state) {
      CountTold(c, p.message, c.nread + 1);
      if c.nread + 1 <= MAX_HEADER_SIZE {
        CountHolds(c);
        StateTold(c.(nread := c.nread + 1), p.message, ch);
      }
    } else {
      StateTold(c, p.message, ch);
    }
  }

  lemma CountHolds(c: Control)
    requires Inv(c) && ParsingHeader(c.state) && c.nread + 1 <= MAX_HEADER_SIZE
    ensures Holds(c.(nread := c.nread + 1), 1)
  {
    hide IndexFits;
  }

  // ---------------------------------------------------------------- whole runs

  /** For every input: in every state that is reached, the length is the declared one, or what is left
      of it; and every request that is handed on without a transfer coding has a body of exactly the
      declared length. */
  lemma {:induction false} RunTold(s: string)
    ensures OutcomeTold(Run(START, s))
  {
    hide Told, AllFramed, Feed1, Inv;
    if s == "" {
      StartIsTold();
    } else {
      var k := |s| - 1;
      RunTold(s[..k]);
      AssertsExactly(s[..k]);
      if Run(START, s[..k]).More? {
        FeedTold(Run(START, s[..k]).parser, s[k]);
      }
    }
  }

  lemma StartIsTold()
    ensures Told(INITIAL, BLANK) && AllFramed([])
  {
  }

  /** The byte `ch` meets the value of a Connection header that is still undecided, as far as the text
      of that header tells. */
  predicate MeetsUndecided(p: Parser, ch: char) {
    && p.control.state.Value? && IsConnection(Lowered(p.message.field)) && Blank(p.message.value)
    && FieldByte(ch) && p.control.nread < MAX_HEADER_SIZE
  }

  lemma MeetsAssert(p: Parser, ch: char)
    requires Told(p.control, p.message)
    ensures MeetsUndecided(p, ch) <==> AtAssert(p.control, ch)
  {
    hide Lengths, NameTold, Blank, Lowered, IsHeaderChar, FieldByte;
    HttpValues.FieldTable(ch);
  }

  /** For every input: an assert of the parser fails if and only if some byte that may stand in a header
      meets a Connection or Proxy-Connection header whose value so far holds only NUL bytes and spaces. */
  lemma AssertsOnText(s: string)
    ensures Asserts(Run(START, s)) <==>
            exists k :: 0 <= k < |s| && Run(START, s[..k]).More? && MeetsUndecided(Run(START, s[..k]).parser, s[k])
  {
    hide Told, Run, AtAssert, MeetsUndecided, Asserts;
    AssertsExactly(s);
    forall k | 0 <= k < |s| && Run(START, s[..k]).More?
      ensures MeetsUndecided(Run(START, s[..k]).parser, s[k]) <==> AtAssert(Run(START, s[..k]).parser.control, s[k])
    {
      RunTold(s[..k]);
      MeetsAssert(Run(START, s[..k]).parser, s[k]);
    }
  }
}
