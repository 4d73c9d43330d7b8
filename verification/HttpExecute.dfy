/** `http_parser_execute`: the buffer-driven loop with its bulk scans and marks, and
    `HTTPParser::feed`.  Every method is proved against the per-byte meaning `Run`. */
module HttpExecute {
  import opened Basics
  import opened HttpChars
  import opened HttpMethods
  import opened HttpControl
  import opened HttpMessage
  import opened HttpSteps

  /** A mark that is not set (a null pointer in the source). */
  const UNSET := -1

  /** The data callback for `data[mark..p]` is still owed when the mark is set. */
  ghost function Flushed(m: Message, d: Data, mark: int, data: string, p: nat): Message
    requires mark <= p <= |data|
  {
    if UNSET < mark < p then OnData(m, d, data[mark..p]) else m
  }

  lemma FlushedSnoc(m: Message, d: Data, mark: nat, data: string, p: nat)
    requires mark <= p < |data|
    ensures Flushed(m, d, mark, data, p + 1) == OnData(Flushed(m, d, mark, data, p), d, [data[p]])
  {
    if mark == p {
      assert data[mark..p + 1] == [data[p]];
    } else {
      assert data[mark..p + 1] == data[mark..p] + [data[p]];
      OnDataAppend(m, d, data[mark..p], [data[p]]);
    }
  }

  /** Inside a name the builder collects a name, inside a value a value. */
  predicate WellBuilt(c: Control, m: Message) {
    c.nread <= MAX_HEADER_SIZE && (c.state.Field? ==> m.inField) && (c.state.Value? ==> !m.inField)
  }

  lemma StepKeepsBuilt(p: Parser, ch: char)
    requires WellBuilt(p.control, p.message) && Feed1(p, ch).More?
    ensures WellBuilt(Feed1(p, ch).parser.control, Feed1(p, ch).parser.message)
  {
    hide StepState;
  }

  lemma {:induction false} RunKeepsBuilt(p: Parser, s: string)
    requires WellBuilt(p.control, p.message) && Run(p, s).More?
    ensures WellBuilt(Run(p, s).parser.control, Run(p, s).parser.message)
  {
    hide Feed1;
    if s != "" {
      var k := |s| - 1;
      RunKeepsBuilt(p, s[..k]);
      StepKeepsBuilt(Run(p, s[..k]).parser, s[k]);
    }
  }

  // ---------------------------------------------------------------- bulk scans, per byte

  /** After the header bytes `s` the parser is at `c`, `m` with `n` bytes counted, unless that
      count has passed the limit. */
  ghost predicate Tracks(p0: Parser, s: string, c: Control, m: Message, n: nat, d: seq<Request>) {
    Run(p0, s) == if n <= MAX_HEADER_SIZE then More(Parser(c.(nread := n), m, d)) else Failed(HeaderOverflow, d)
  }

  lemma RunNext(p0: Parser, s: string, ch: char)
    ensures Run(p0, s + [ch]) == if !Run(p0, s).More? then Run(p0, s)
                                 else var o := Feed1(Run(p0, s).parser, ch);
                                   if o.Upgraded? then o.(used := |s| + 1) else o
  {
    hide Feed1;
    assert (s + [ch])[..|s|] == s;
  }

  lemma FieldAdvance(p0: Parser, s: string, c: Control, m: Message, n: nat, d: seq<Request>, ch: char)
    requires Tracks(p0, s, c, m, n, d) && c.state.Field? && Token(ch) != NUL
    ensures Tracks(p0, s + [ch], InField(c, ch), OnData(m, FieldData, [ch]), n + 1, d)
  {
    hide Feed1;
    RunNext(p0, s, ch);
    FieldFeed(Parser(c.(nread := n), m, d), ch);
  }

  lemma ValueAdvance(p0: Parser, s: string, c: Control, m: Message, n: nat, d: seq<Request>, ch: char)
    requires Tracks(p0, s, c, m, n, d) && c.state.Value? && ch != CR && ch != LF
    ensures var v := ValueByte(ScanOf(c), c.contentLength, ch);
            if v.InValue? then Tracks(p0, s + [ch], AfterValue(c, v), OnData(m, ValueData, [ch]), n + 1, d)
            else Run(p0, s + [ch]) == Failed(HeaderOverflow, d) || Run(p0, s + [ch]) == Failed(v.errno, d)
  {
    hide Feed1;
    RunNext(p0, s, ch);
    ValueFeed(Parser(c.(nread := n), m, d), ch);
  }

  /** Past the limit every header byte fails, whatever it is. */
  lemma OverflowAdvance(p0: Parser, s: string, c: Control, m: Message, n: nat, d: seq<Request>, ch: char,
                        c': Control, m': Message)
    requires Tracks(p0, s, c, m, n, d) && ParsingHeader(c.state) && n >= MAX_HEADER_SIZE
    ensures Tracks(p0, s + [ch], c', m', n + 1, d)
  {
    hide Feed1;
    RunNext(p0, s, ch);
    if n <= MAX_HEADER_SIZE {
      OverflowFeed(Parser(c.(nread := n), m, d), ch);
    }
  }

  // ---------------------------------------------------------------- the parser object

  /** `struct http_parser` and the `HTTPParser` built on it. */
  class HttpParser {
    var control: Control
    var errno: Option<Errno>
    var message: Message
    /** Requests handed to the handler. */
    var delivered: seq<Request>

    ghost predicate Valid()
      reads this
    {
      errno.None? ==> WellBuilt(control, message)
    }

    ghost function Abs(): Parser
      reads this
    {
      Parser(control, message, delivered)
    }

    constructor ()
      ensures Valid() && errno.None? && Abs() == START
    {
      control, errno, message, delivered := INITIAL, None, BLANK, [];
    }

    /** Count header bytes against the limit. */
    method CountHeader(n: nat)
      requires errno.None?
      modifies this
      ensures control == old(control).(nread := old(control).nread + n)
      ensures message == old(message) && delivered == old(delivered)
      ensures errno == if control.nread > MAX_HEADER_SIZE then Some(HeaderOverflow) else None
    {
      control := control.(nread := control.nread + n);
      if control.nread > MAX_HEADER_SIZE {
        errno := Some(HeaderOverflow);
      }
    }

    /** Inner loop of the scan of an unknown header name: to the last token character in reach. */
    method SkipName(data: string, ghost start: nat, from: nat, ghost mark: nat, ghost a: Parser, ghost n0: nat)
      returns (p: nat)
      requires control.state.Field? && control.headerState.General?
      requires mark <= start <= from < |data| && Token(data[from]) != NUL
      requires Tracks(a, data[start..from], control, Flushed(message, FieldData, mark, data, from), n0 + (from - start),
                      delivered)
      ensures from <= p < |data| && Token(data[p]) != NUL
      ensures Tracks(a, data[start..p], control, Flushed(message, FieldData, mark, data, p), n0 + (p - start),
                     delivered)
    {
      hide Feed1, Run, InField, OnData, Tracks, Flushed;
      p := from;
      var pe := p + if |data| - p < MAX_HEADER_SIZE then |data| - p else MAX_HEADER_SIZE;
      while p + 1 < pe && Token(data[p + 1]) != NUL
        invariant from <= p < pe && Token(data[p]) != NUL
        invariant Tracks(a, data[start..p], control, Flushed(message, FieldData, mark, data, p), n0 + (p - start),
                         delivered)
      {
        AdvanceField(a, data, start, mark, p, control, message, n0, delivered);
        p := p + 1;
      }
    }

    /** The scan over the token characters of a header name; names that match no known one are
        skipped by an inner loop. */
    method ScanName(data: string, start: nat, ghost mark: nat, ghost a: Parser, ghost n0: nat) returns (p: nat)
      requires errno.None? && control.state.Field? && mark <= start < |data|
      requires Tracks(a, data[start..start], control, Flushed(message, FieldData, mark, data, start), n0, delivered)
      modifies this`control
      ensures start <= p <= |data| && (p < |data| ==> Token(data[p]) == NUL)
      ensures control.state.Field? && control.nread == old(control).nread
      ensures Tracks(a, data[start..p], control, Flushed(message, FieldData, mark, data, p), n0 + (p - start),
                     delivered)
    {
      hide Feed1, Run, InField, OnData, Tracks, Flushed;
      p := start;
      while p < |data|
        invariant start <= p <= |data| && control.state.Field? && control.nread == old(control).nread
        invariant Tracks(a, data[start..p], control, Flushed(message, FieldData, mark, data, p), n0 + (p - start),
                         delivered)
      {
        if Token(data[p]) == NUL {
          break;
        }
        if control.headerState.General? {
          p := SkipName(data, start, p, mark, a, n0);
        }
        AdvanceField(a, data, start, mark, p, control, message, n0, delivered);
        control := InField(control, data[p]);
        p := p + 1;
      }
    }

    /** State s_header_field. */
    method ScanField(data: string, start: nat, mark: nat) returns (p: nat, mark': int)
      requires errno.None? && control.state.Field? && mark <= start < |data|
      requires WellBuilt(control, Flushed(message, FieldData, mark, data, start))
      modifies this
      ensures delivered == old(delivered)
      ensures start < p <= |data| && UNSET <= mark' <= p
      ensures var a := Parser(old(control), Flushed(old(message), FieldData, mark, data, start), delivered);
              if errno.None? then
                && Run(a, data[start..p]) ==
                   More(Parser(control, Flushed(message, FieldData, mark', data, p), delivered))
                && ((control.state.Field? && mark' == mark) || (control.state.DiscardWs? && mark' == UNSET))
              else
                Run(a, data[start..p]) == Failed(errno.value, delivered)
    {
      hide Feed1, Run, InField;
      ghost var a := Parser(control, Flushed(message, FieldData, mark, data, start), delivered);
      ghost var n0 := control.nread;
      mark' := mark;
      RunEmpty(a, data[start..start]);
      CountHeader(1);
      if errno.Some? {
        p := start + 1;
        OverflowAdvance(a, [], a.control, a.message, n0, delivered, data[start], a.control, a.message);
        assert [] + [data[start]] == data[start..p];
        return;
      }
      p := ScanName(data, start, mark, a, n0);
      if p == |data| {
        CountHeader(p - 1 - start);
      } else {
        EndField(a, data, start, mark, p, control, message, n0, delivered);
        CountHeader(p - start);
        if errno.None? {
          if data[p] == ':' {
            assert message.field + "" == message.field;
            control := control.(state := DiscardWs);
            message := OnField(message, data[mark..p]);
            mark' := UNSET;
          } else {
            errno := Some(InvalidHeaderToken);
          }
        }
        p := p + 1;
      }
    }

    /** Inner loop of the scan of an uninteresting header value.  It may run past the limit on
        header bytes and then even jump over one byte; the count taken afterwards rejects that. */
    method SkipValue(data: string, ghost start: nat, from: nat, ghost mark: nat, ghost a: Parser, ghost n0: nat)
      returns (p: nat)
      requires errno.None? && control.state.Value? && control.headerState.General?
      requires mark <= start <= from < |data| && data[from] != CR && data[from] != LF
      requires Tracks(a, data[start..from], control, Flushed(message, ValueData, mark, data, from), n0 + (from - start),
                      delivered)
      modifies this`errno
      ensures from < p <= |data|
      ensures errno.None? ==>
                Tracks(a, data[start..p], control, Flushed(message, ValueData, mark, data, p), n0 + (p - start),
                       delivered)
      ensures errno.Some? ==> FailsWith(Run(a, data[start..p]), errno.value, delivered)
    {
      hide Feed1, Run, OnData, Tracks, Flushed, ValueByte, AfterValue;
      p := from;
      var pe := p + if |data| - p < MAX_HEADER_SIZE then |data| - p else MAX_HEADER_SIZE;
      while p != pe && data[p] != CR && data[p] != LF
        invariant from <= p <= pe && errno.None?
        invariant p == from ==> data[p] != CR && data[p] != LF
        invariant Tracks(a, data[start..p], control, Flushed(message, ValueData, mark, data, p), n0 + (p - start),
                         delivered)
        decreases pe - p
      {
        AdvanceValue(a, data, start, mark, p, control, message, n0, delivered);
        if !IsHeaderChar(data[p]) {
          errno := Some(InvalidHeaderToken);
          p := p + 1;
          return;
        }
        p := p + 1;
      }
      if p == pe && p < |data| {
        JumpValue(a, data, start, mark, p, control, message, n0, delivered);
        p := p + 1;
      }
    }

    /** The scan over the bytes of a header value. */
    method ScanValueBytes(data: string, start: nat, ghost mark: nat, ghost a: Parser, ghost n0: nat) returns (p: nat)
      requires errno.None? && control.state.Value? && mark <= start < |data|
      requires Tracks(a, data[start..start], control, Flushed(message, ValueData, mark, data, start), n0, delivered)
      modifies this`control, this`errno
      ensures start <= p <= |data|
      ensures control.state.Value? && control.nread == old(control).nread
      ensures errno.None? ==>
                && (p < |data| ==> data[p] == CR || data[p] == LF)
                && Tracks(a, data[start..p], control, Flushed(message, ValueData, mark, data, p), n0 + (p - start),
                          delivered)
      ensures errno.Some? ==> start < p && FailsWith(Run(a, data[start..p]), errno.value, delivered)
    {
      hide Feed1, Run, OnData, Tracks, Flushed, ValueByte, AfterValue;
      p := start;
      while p < |data| && data[p] != CR && data[p] != LF
        invariant start <= p <= |data| && errno.None?
        invariant control.state.Value? && control.nread == old(control).nread
        invariant Tracks(a, data[start..p], control, Flushed(message, ValueData, mark, data, p), n0 + (p - start),
                         delivered)
      {
        if control.headerState.General? {
          p := SkipValue(data, start, p, mark, a, n0);
          if errno.Some? {
            return;
          }
        } else {
          AdvanceValue(a, data, start, mark, p, control, message, n0, delivered);
          var v := ValueByte(ScanOf(control), control.contentLength, data[p]);
          p := p + 1;
          if v.BadValue? {
            errno := Some(v.errno);
            return;
          }
          control := AfterValue(control, v);
        }
      }
    }

    /** State s_header_value. */
    method ScanValue(data: string, start: nat, mark: nat) returns (p: nat, mark': int)
      requires errno.None? && control.state.Value? && mark <= start < |data|
      requires WellBuilt(control, Flushed(message, ValueData, mark, data, start))
      modifies this
      ensures delivered == old(delivered)
      ensures start < p <= |data| && UNSET <= mark' <= p
      ensures var a := Parser(old(control), Flushed(old(message), ValueData, mark, data, start), delivered);
              if errno.None? then
                && Run(a, data[start..p]) ==
                   More(Parser(control, Flushed(message, ValueData, mark', data, p), delivered))
                && ((control.state.Value? && mark' == mark)
                    || ((control.state.HeaderAlmostDone? || control.state.ValueLws?) && mark' == UNSET))
              else
                FailsWith(Run(a, data[start..p]), errno.value, delivered)
    {
      hide Feed1, Run;
      ghost var a := Parser(control, Flushed(message, ValueData, mark, data, start), delivered);
      ghost var n0 := control.nread;
      mark' := mark;
      RunEmpty(a, data[start..start]);
      CountHeader(1);
      if errno.Some? {
        p := start + 1;
        OverflowAdvance(a, [], a.control, a.message, n0, delivered, data[start], a.control, a.message);
        assert [] + [data[start]] == data[start..p];
        return;
      }
      p := ScanValueBytes(data, start, mark, a, n0);
      if errno.Some? {
        return;
      }
      if p == |data| {
        CountHeader(p - 1 - start);
      } else {
        EndValue(a, data, start, mark, p, control, message, n0, delivered);
        CountHeader(p - start);
        if errno.None? {
          assert message.value + "" == message.value;
          message := OnValue(message, data[mark..p]);
          mark' := UNSET;
          control := control.(state := if data[p] == CR then HeaderAlmostDone else ValueLws);
        }
        p := p + 1;
      }
    }

    /** State s_body_identity: as much of the body as the buffer holds. */
    method ReadIdentity(data: string, start: nat) returns (p: nat, mark': int)
      requires errno.None? && control.state.BodyIdentity? && start < |data|
      modifies this
      ensures start < p <= |data| && UNSET <= mark' <= p
      ensures if errno.None? then
                && Run(old(Abs()), data[start..p]) ==
                   More(Parser(control, Flushed(message, BodyData, mark', data, p), delivered))
                && (mark' == UNSET ==> control.state.StartReq?)
                && (mark' != UNSET ==> control.state.BodyIdentity? && p == |data|)
              else
                Run(old(Abs()), data[start..p]) == Failed(errno.value, delivered) && delivered == old(delivered)
    {
      hide Feed1, Run;
      var left := |data| - start;
      var toRead := if control.contentLength < left then control.contentLength else left;
      if control.contentLength == 0 || control.contentLength == NO_LENGTH {
        StuckFeed(Abs(), data[start]);
        RunOne(Abs(), data[start]);
        assert data[start..start + 1] == [data[start]];
        errno := Some(AssertionFailed);
        p, mark' := start + 1, UNSET;
        return;
      }
      p := start + toRead;
      if toRead < control.contentLength {
        mark' := start;
        IdentityRun(Abs(), data[start..p]);
        control := control.(contentLength := control.contentLength - toRead);
      } else {
        mark' := UNSET;
        IdentityEnd(Abs(), data[start..p]);
        control := control.(contentLength := 0);
        message := OnBody(message, data[start..p]);
        delivered := delivered + [ToRequest(message, control)];
        control := control.(state := StartReq);
      }
    }

    /** State s_chunk_data. */
    method ReadChunk(data: string, start: nat) returns (p: nat, mark': int)
      requires errno.None? && control.state.ChunkData? && start < |data|
      modifies this
      ensures delivered == old(delivered) && start < p <= |data| && start <= mark' <= p
      ensures if errno.None? then
                && Run(old(Abs()), data[start..p]) ==
                   More(Parser(control, Flushed(message, BodyData, mark', data, p), delivered))
                && (control.state.ChunkDataAlmostDone? || (control.state.ChunkData? && p == |data|))
              else
                Run(old(Abs()), data[start..p]) == Failed(errno.value, delivered)
    {
      hide Feed1, Run;
      mark' := start;
      if !control.flags.chunked || control.contentLength == 0 || control.contentLength == NO_LENGTH {
        StuckFeed(Abs(), data[start]);
        RunOne(Abs(), data[start]);
        assert data[start..start + 1] == [data[start]];
        errno := Some(AssertionFailed);
        p := start + 1;
        return;
      }
      var left := |data| - start;
      var toRead := if control.contentLength < left then control.contentLength else left;
      p := start + toRead;
      ChunkRun(Abs(), data[start..p]);
      control := control.(contentLength := control.contentLength - toRead);
      if control.contentLength == 0 {
        control := control.(state := ChunkDataAlmostDone);
      }
    }

    /** The callbacks owed at the end of a URL or of a piece of a body. */
    method FlushBefore(data: string, p: nat, marks: Marks)
      requires UNSET <= marks.url <= p && UNSET <= marks.body <= p <= |data| && marks.field == marks.value == UNSET
      requires marks.url == UNSET || marks.body == UNSET
      modifies this`message
      ensures message == Owed(old(message), marks, data, p)
    {
      assert message.rawUrl + "" == message.rawUrl && message.body + "" == message.body;
      if marks.url != UNSET {
        message := OnUrl(message, data[marks.url..p]);
      }
      if marks.body != UNSET {
        message := OnBody(message, data[marks.body..p]);
      }
    }

    /** The callbacks of one byte up to its own data: what was owed before it is made, and what it
        begins is owed from now on. */
    method DataCallbacks(data: string, p: nat, marks: Marks, e: Effect, was: State, now: State) returns (marks': Marks)
      requires p < |data| && !IsBulk(was) && MarksFit(was, marks, p) && !e.data.BodyData?
      requires (now.Field? <==> e.data.FieldData?) && (now.Value? <==> e.data.ValueData?)
      requires IsUrlState(now) <==> e.data.UrlData?
      requires e.data.UrlData? ==> was.SpacesBeforeUrl? || IsUrlState(was)
      requires e.begin ==> was.StartReq? && e.data.NoData?
      requires e.emptyValue || e.data.FieldData? || e.data.ValueData? ==> IsHeaderState(was)
      modifies this`message
      ensures MarksFit(now, marks', p + 1) && marks'.body == UNSET
      ensures var m0 := if e.begin then BLANK else Owed(old(message), marks, data, p);
              var m1 := if e.emptyValue then OnValue(m0, "") else m0;
              Owed(message, marks', data, p + 1) == OnData(m1, e.data, [data[p]])
    {
      hide Owed, OnData, OnValue;
      BeforeData(message, marks, was, data, p);
      if e.begin {
        message := BLANK;
      }
      if e.emptyValue {
        message := OnValue(message, "");
      }
      BeforeData(message, marks, was, data, p);
      if e.data.UrlData? {
        UrlMarked(message, marks, data, p);
        marks' := NO_MARKS.(url := if marks.url == UNSET then p else marks.url);
      } else if e.data.FieldData? {
        MarkedHere(message, data, p);
        marks' := NO_MARKS.(field := p);
      } else if e.data.ValueData? {
        MarkedHere(message, data, p);
        marks' := NO_MARKS.(value := p);
      } else {
        FlushBefore(data, p, marks);
        NothingMarked(message, NO_MARKS, now, data, p + 1);
        NoDataCalled(message, data[p]);
        marks' := NO_MARKS;
      }
    }

    /** Every other state: one byte, the marks it sets and the callbacks it causes. */
    method OneByte(data: string, p: nat, marks: Marks) returns (marks': Marks, halted: bool)
      requires errno.None? && p < |data| && !IsBulk(control.state) && MarksFit(control.state, marks, p)
      modifies this
      ensures var a := Parser(old(control), Owed(old(message), marks, data, p), old(delivered));
              match Feed1(a, data[p])
              case Failed(e, d) => errno == Some(e) && delivered == d
              case Upgraded(k, d) => k == 1 && errno.None? && halted && delivered == d && WellBuilt(control, message)
              case More(q) =>
                && errno.None? && !halted
                && MarksFit(control.state, marks', p + 1) && marks'.body == UNSET
                && q == Parser(control, Owed(message, marks', data, p + 1), delivered)
    {
      hide Step, Owed, OnData, OnValue, KeepAliveOf, CloseOf, ToRequest;
      marks', halted := marks, false;
      var ch := data[p];
      var r := Step(control, ch);
      if r.Err? {
        errno := Some(r.errno);
        return;
      }
      var e := r.effect;
      BulkData(control, ch);
      marks' := DataCallbacks(data, p, marks, e, control.state, r.control.state);
      if e.data.NoData? {
        NothingMarked(message, marks', r.control.state, data, p + 1);
      }
      control := r.control;
      if e.headersComplete {
        message := OnHeadersComplete(message, control);
      }
      if e.complete {
        delivered := delivered + [ToRequest(message, control)];
      }
      halted := r.Halt?;
    }

    /** One turn of the loop: a bulk scan or a single byte. */
    method Turn(data: string, start: nat, marks: Marks) returns (p: nat, marks': Marks, halted: bool)
      requires errno.None? && start < |data|
      requires MarksFit(control.state, marks, start) && BodyMarkFits(control.state, marks, start, |data|)
      requires WellBuilt(control, Owed(message, marks, data, start))
      modifies this
      ensures start < p <= |data|
      ensures var a := Parser(old(control), Owed(old(message), marks, data, start), old(delivered));
              Follows(Run(a, data[start..p]), p - start, errno, halted, delivered)
      ensures errno.None? && halted ==> WellBuilt(control, message)
      ensures errno.None? && !halted ==>
                && MarksFit(control.state, marks', p) && BodyMarkFits(control.state, marks', p, |data|)
                && Run(Parser(old(control), Owed(old(message), marks, data, start), old(delivered)), data[start..p])
                   == More(Parser(control, Owed(message, marks', data, p), delivered))
    {
      hide Run, Feed1, Step;
      halted := false;
      if control.state.Field? {
        var m: int;
        p, m := ScanField(data, start, marks.field);
        marks' := NO_MARKS.(field := m);
        NothingOwed(message, data, p);
      } else if control.state.Value? {
        var m: int;
        p, m := ScanValue(data, start, marks.value);
        marks' := NO_MARKS.(value := m);
        NothingOwed(message, data, p);
      } else if control.state.BodyIdentity? {
        NothingOwed(message, data, start);
        var m: int;
        p, m := ReadIdentity(data, start);
        marks' := NO_MARKS.(body := m);
      } else if control.state.ChunkData? {
        NothingOwed(message, data, start);
        var m: int;
        p, m := ReadChunk(data, start);
        marks' := NO_MARKS.(body := m);
      } else {
        assert data[start..start + 1] == [data[start]];
        RunOne(Parser(control, Owed(message, marks, data, start), delivered), data[start]);
        marks', halted := OneByte(data, start, marks);
        p := start + 1;
      }
    }

    /** `http_parser_execute`, with its result: the number of bytes consumed. */
    method Execute(data: string) returns (nparsed: nat)
      requires Valid() && |data| < 0x8000_0000
      modifies this
      ensures Valid()
      ensures old(errno).Some? ==> nparsed == 0 && errno == old(errno) && Abs() == old(Abs())
      ensures old(errno).None? && data == "" ==>
                if old(control).state.Dead? || old(control).state.StartReq?
                then nparsed == 0 && errno.None? && Abs() == old(Abs())
                else nparsed == 1 && errno == Some(InvalidEofState) && Abs() == old(Abs())
      ensures old(errno).None? && data != "" ==>
                match Run(old(Abs()), data)
                case More(q) => errno.None? && nparsed == |data| && Abs() == q
                case Failed(e, d) => errno.Some? && FailsWith(Failed(e, d), errno.value, delivered)
                case Upgraded(n, d) => errno.None? && nparsed == n && delivered == d
    {
      hide Run, Feed1, Step, Flushed;
      if errno.Some? {
        return 0;
      }
      if data == "" {
        if control.state.Dead? || control.state.StartReq? {
          return 0;
        }
        errno := Some(InvalidEofState);
        return 1;
      }
      ghost var a := Abs();
      var p, halted := 0, false;
      var marks := MarksAtStart(control.state);
      OwedAtStart(message, data, marks);
      RunEmpty(a, data[..0]);
      while p < |data|
        invariant p <= |data| && errno.None? && !halted
        invariant MarksFit(control.state, marks, p) && BodyMarkFits(control.state, marks, p, |data|)
        invariant Run(a, data[..p]) == More(Parser(control, Owed(message, marks, data, p), delivered))
        decreases |data| - p
      {
        RunKeepsBuilt(a, data[..p]);
        ghost var q := p;
        p, marks, halted := Turn(data, p, marks);
        RunExtend(a, data, q, p);
        if errno.Some? || halted {
          RunStopped(a, data, p);
          return p;
        }
      }
      assert data[..p] == data;
      assert (if marks.url != UNSET then 1 else 0) + (if marks.field != UNSET then 1 else 0)
             + (if marks.value != UNSET then 1 else 0) + (if marks.body != UNSET then 1 else 0) <= 1;
      RunKeepsBuilt(a, data);
      FlushOwed(message, marks, data, control);
      if marks.field != UNSET { message := OnField(message, data[marks.field..]); }
      if marks.value != UNSET { message := OnValue(message, data[marks.value..]); }
      if marks.url != UNSET { message := OnUrl(message, data[marks.url..]); }
      if marks.body != UNSET { message := OnBody(message, data[marks.body..]); }
      return |data|;
    }

    /** `HTTPParser::feed`: false on an error, and when an upgrade leaves bytes unread. */
    method Feed(data: string) returns (ok: bool)
      requires Valid() && |data| < 0x8000_0000
      modifies this
      ensures Valid()
      ensures old(errno).Some? ==> !ok && errno == old(errno) && Abs() == old(Abs())
      ensures old(errno).None? && data == "" ==>
                ok == (old(control).state.Dead? || old(control).state.StartReq?) && Abs() == old(Abs())
      ensures old(errno).None? && data != "" ==>
                match Run(old(Abs()), data)
                case More(q) => ok && errno.None? && Abs() == q
                case Failed(e, d) => !ok && errno.Some? && FailsWith(Failed(e, d), errno.value, delivered)
                case Upgraded(n, d) => ok == (n == |data|) && errno.None? && delivered == d
    {
      hide Run, Feed1;
      var nparsed := Execute(data);
      ok := errno.None? && nparsed == |data|;
    }

    /** A connection's reads, one buffer after the other, until one fails. */
    method FeedAll(buffers: seq<string>) returns (ok: bool)
      requires Valid() && errno.None?
      requires forall i :: 0 <= i < |buffers| ==> buffers[i] != "" && |buffers[i]| < 0x8000_0000
      requires !Run(Abs(), Concat(buffers)).Upgraded?
      modifies this
      ensures match Run(old(Abs()), Concat(buffers))
              case More(q) => ok && errno.None? && Abs() == q
              case Failed(e, d) => !ok && errno.Some? && FailsWith(Failed(e, d), errno.value, delivered)
              case Upgraded(_, _) => false
    {
      hide Run, Feed1;
      ghost var a := Abs();
      ok := true;
      var i := 0;
      RunEmpty(a, Concat(buffers[..0]));
      while i < |buffers|
        invariant i <= |buffers| && Valid() && errno.None? && ok
        invariant Run(a, Concat(buffers[..i])) == More(Abs())
      {
        ConcatSplit(buffers, i);
        RunAppend(a, Concat(buffers[..i]), buffers[i]);
        RunAppend(a, Concat(buffers[..i + 1]), Concat(buffers[i + 1..]));
        ok := Feed(buffers[i]);
        if !ok {
          return;
        }
        i := i + 1;
      }
      assert buffers[..i] == buffers;
    }
  }

  /** Error state and hand-overs after a piece of input, against its meaning. */
  predicate Follows(o: Outcome, n: nat, errno: Option<Errno>, halted: bool, d: seq<Request>) {
    match o
    case More(q) => errno.None? && !halted
    case Failed(e, d') => errno.Some? && FailsWith(Failed(e, d'), errno.value, d)
    case Upgraded(k, d') => errno.None? && halted && k == n && d == d'
  }

  /** A body mark survives a bulk read only at the end of the buffer. */
  predicate BodyMarkFits(s: State, marks: Marks, p: nat, len: nat) {
    marks.body != UNSET && (s.ChunkData? || s.BodyIdentity?) ==> p == len
  }

  function MarksAtStart(s: State): Marks {
    Marks(if IsUrlState(s) then 0 else UNSET, if s.Field? then 0 else UNSET, if s.Value? then 0 else UNSET, UNSET)
  }

  lemma OwedAtStart(m: Message, data: string, marks: Marks)
    requires UNSET <= marks.url <= 0 && UNSET <= marks.field <= 0 && UNSET <= marks.value <= 0
             && UNSET <= marks.body <= 0
    ensures Owed(m, marks, data, 0) == m
  {
  }

  lemma NothingOwed(m: Message, data: string, p: nat)
    requires p <= |data|
    ensures Owed(m, NO_MARKS, data, p) == m
  {
  }

  /** The callbacks at the end of the buffer pay what is owed. */
  lemma FlushOwed(m: Message, marks: Marks, data: string, c: Control)
    requires MarksFit(c.state, marks, |data|) && WellBuilt(c, Owed(m, marks, data, |data|))
    ensures var m' := Owed(m, marks, data, |data|);
            && (marks.field != UNSET ==> m' == OnField(m, data[marks.field..]))
            && (marks.value != UNSET ==> m' == OnValue(m, data[marks.value..]))
            && (marks.url != UNSET ==> m' == OnUrl(m, data[marks.url..]))
            && (marks.body != UNSET ==> m' == OnBody(m, data[marks.body..]))
            && (marks == NO_MARKS ==> m' == m)
  {
    assert m.rawUrl + "" == m.rawUrl && m.field + "" == m.field && m.value + "" == m.value && m.body + "" == m.body;
  }

  lemma RunExtend(a: Parser, data: string, q: nat, p: nat)
    requires q <= p <= |data|
    ensures Run(a, data[..p]) == Then(Run(a, data[..q]), q, data[q..p])
  {
    hide Run;
    RunAppend(a, data[..q], data[q..p]);
    assert data[..q] + data[q..p] == data[..p];
  }

  /** What the buffers hold together. */
  function Concat(buffers: seq<string>): string {
    if buffers == [] then "" else Concat(buffers[..|buffers| - 1]) + buffers[|buffers| - 1]
  }

  lemma {:induction false} ConcatSplit(buffers: seq<string>, i: nat)
    requires i < |buffers|
    ensures Concat(buffers[..i + 1]) == Concat(buffers[..i]) + buffers[i]
    ensures Concat(buffers) == Concat(buffers[..i + 1]) + Concat(buffers[i + 1..])
  {
    assert buffers[..i + 1][..i] == buffers[..i];
    ConcatAppend(buffers[..i + 1], buffers[i + 1..]);
    assert buffers[..i + 1] + buffers[i + 1..] == buffers;
  }

  lemma {:induction false} ConcatAppend(b: seq<string>, c: seq<string>)
    ensures Concat(b + c) == Concat(b) + Concat(c)
  {
    if c == [] {
      assert b + c == b;
    } else {
      var k := |c| - 1;
      ConcatAppend(b, c[..k]);
      assert (b + c)[..|b + c| - 1] == b + c[..k];
    }
  }

  /** The four pointers into the buffer that a data callback is owed for. */
  datatype Marks = Marks(url: int, field: int, value: int, body: int)

  const NO_MARKS := Marks(UNSET, UNSET, UNSET, UNSET)

  /** States that consume many bytes at a time. */
  predicate IsBulk(s: State) {
    s.Field? || s.Value? || s.BodyIdentity? || s.ChunkData?
  }

  /** Which marks are set is determined by the state; so at most one is. */
  ghost predicate MarksFit(s: State, marks: Marks, p: nat) {
    && UNSET <= marks.url <= p && UNSET <= marks.field <= p && UNSET <= marks.value <= p && UNSET <= marks.body <= p
    && (marks.url != UNSET <==> IsUrlState(s))
    && (marks.field != UNSET <==> s.Field?)
    && (marks.value != UNSET <==> s.Value?)
    && (marks.body != UNSET ==> s.ChunkDataAlmostDone? || s.ChunkData? || s.BodyIdentity?)
  }

  /** The request under construction once the owed callback has been made. */
  ghost function Owed(m: Message, marks: Marks, data: string, p: nat): Message
    requires marks.url <= p && marks.field <= p && marks.value <= p && marks.body <= p <= |data|
  {
    if marks.url != UNSET then Flushed(m, UrlData, marks.url, data, p)
    else if marks.field != UNSET then Flushed(m, FieldData, marks.field, data, p)
    else if marks.value != UNSET then Flushed(m, ValueData, marks.value, data, p)
    else Flushed(m, BodyData, marks.body, data, p)
  }

  /** What a byte outside the bulk scans can cause. */
  lemma BulkData(c: Control, ch: char)
    requires !IsBulk(c.state) && !Step(c, ch).Err?
    ensures var r := Step(c, ch);
            && !r.effect.data.BodyData?
            && (r.effect.emptyValue || r.effect.headersComplete || r.effect.data.FieldData?
                || r.effect.data.ValueData? ==>
                  IsHeaderState(c.state) && !c.state.Field? && !c.state.Value?)
            && (r.Halt? ==> r.control.nread <= MAX_HEADER_SIZE && r.control.state.StartReq?)
  {
    hide StepState;
  }

  /** Before a header or a message nothing is owed. */
  lemma BeforeData(m: Message, marks: Marks, was: State, data: string, p: nat)
    requires p <= |data| && !IsBulk(was) && MarksFit(was, marks, p)
    ensures marks.field == UNSET == marks.value && (marks.url == UNSET || marks.body == UNSET)
    ensures was.StartReq? || IsHeaderState(was) ==> marks == NO_MARKS && Owed(m, marks, data, p) == m
    ensures was.SpacesBeforeUrl? || IsUrlState(was) ==> marks.body == UNSET
  {
  }

  /** A mark set at this byte owes this byte. */
  lemma MarkedHere(m: Message, data: string, p: nat)
    requires p < |data|
    ensures Owed(m, NO_MARKS.(field := p), data, p + 1) == OnData(m, FieldData, [data[p]])
    ensures Owed(m, NO_MARKS.(value := p), data, p + 1) == OnData(m, ValueData, [data[p]])
    ensures Owed(m, NO_MARKS.(url := p), data, p + 1) == OnData(m, UrlData, [data[p]])
  {
    hide OnField, OnValue, OnUrl;
    assert data[p..p + 1] == [data[p]];
  }

  /** A URL goes on, or begins. */
  lemma UrlMarked(m: Message, marks: Marks, data: string, p: nat)
    requires p < |data| && UNSET <= marks.url <= p
    requires marks.field == UNSET == marks.value && marks.body == UNSET
    ensures var url := if marks.url == UNSET then p else marks.url;
            Owed(m, NO_MARKS.(url := url), data, p + 1) == OnData(Owed(m, marks, data, p), UrlData, [data[p]])
  {
    hide OnData;
    if marks.url == UNSET {
      MarkedHere(m, data, p);
    } else {
      FlushedSnoc(m, UrlData, marks.url, data, p);
    }
  }

  lemma NoDataCalled(m: Message, ch: char)
    ensures OnData(m, NoData, [ch]) == m
  {
  }

  /** Outside names, values and URLs nothing is owed. */
  lemma NothingMarked(m: Message, marks: Marks, s: State, data: string, p: nat)
    requires p <= |data| && MarksFit(s, marks, p) && marks.body == UNSET
    requires !s.Field? && !s.Value? && !IsUrlState(s)
    ensures Owed(m, marks, data, p) == m && forall m': Message :: Owed(m', marks, data, p) == m'
    ensures OnData(m, NoData, "") == m
  {
  }

  /** The parser failed.  The error code of a bulk scan is the per-byte one, unless the header
      was already too long: then the scan may have met a bad character first. */
  predicate FailsWith(o: Outcome, e: Errno, d: seq<Request>) {
    o == Failed(e, d) || o == Failed(HeaderOverflow, d)
  }

  lemma AdvanceValue(a: Parser, data: string, start: nat, mark: nat, p: nat, c: Control, m: Message, n0: nat,
                     d: seq<Request>)
    requires mark <= start <= p < |data| && c.state.Value? && data[p] != CR && data[p] != LF
    requires Tracks(a, data[start..p], c, Flushed(m, ValueData, mark, data, p), n0 + (p - start), d)
    ensures var v := ValueByte(ScanOf(c), c.contentLength, data[p]);
            if v.InValue? then
              && Tracks(a, data[start..p + 1], AfterValue(c, v), Flushed(m, ValueData, mark, data, p + 1),
                        n0 + (p + 1 - start), d)
              && AfterValue(c, v).state == c.state && AfterValue(c, v).nread == c.nread
              && (c.headerState.General? ==> AfterValue(c, v) == c)
            else FailsWith(Run(a, data[start..p + 1]), v.errno, d)
    ensures c.headerState.General? ==>
              var v := ValueByte(ScanOf(c), c.contentLength, data[p]);
              if IsHeaderChar(data[p]) then v.InValue? else v == BadValue(InvalidHeaderToken)
  {
    hide Feed1, Run;
    ValueAdvance(a, data[start..p], c, Flushed(m, ValueData, mark, data, p), n0 + (p - start), d, data[p]);
    FlushedSnoc(m, ValueData, mark, data, p);
    assert data[start..p] + [data[p]] == data[start..p + 1];
  }

  lemma JumpValue(a: Parser, data: string, start: nat, mark: nat, p: nat, c: Control, m: Message, n0: nat,
                  d: seq<Request>)
    requires mark <= start <= p < |data| && c.state.Value? && n0 + (p - start) >= MAX_HEADER_SIZE
    requires Tracks(a, data[start..p], c, Flushed(m, ValueData, mark, data, p), n0 + (p - start), d)
    ensures Tracks(a, data[start..p + 1], c, Flushed(m, ValueData, mark, data, p + 1), n0 + (p + 1 - start), d)
  {
    hide Feed1, Run;
    OverflowAdvance(a, data[start..p], c, Flushed(m, ValueData, mark, data, p), n0 + (p - start), d, data[p],
                    c, Flushed(m, ValueData, mark, data, p + 1));
    assert data[start..p] + [data[p]] == data[start..p + 1];
  }

  lemma EndValue(a: Parser, data: string, start: nat, mark: nat, p: nat, c: Control, m: Message, n0: nat,
                 d: seq<Request>)
    requires mark <= start <= p < |data| && c.state.Value? && (data[p] == CR || data[p] == LF)
    requires Tracks(a, data[start..p], c, Flushed(m, ValueData, mark, data, p), n0 + (p - start), d)
    ensures Run(a, data[start..p + 1]) ==
            var n := n0 + (p + 1 - start);
            if n > MAX_HEADER_SIZE then Failed(HeaderOverflow, d)
            else More(Parser(c.(nread := n, state := if data[p] == CR then HeaderAlmostDone else ValueLws),
                             Flushed(m, ValueData, mark, data, p), d))
  {
    hide Feed1, Run;
    RunNext(a, data[start..p], data[p]);
    assert data[start..p] + [data[p]] == data[start..p + 1];
    ValueEndFeed(Parser(c.(nread := n0 + (p - start)), Flushed(m, ValueData, mark, data, p), d), data[p]);
  }

  lemma AdvanceField(a: Parser, data: string, start: nat, mark: nat, p: nat, c: Control, m: Message, n0: nat,
                     d: seq<Request>)
    requires mark <= start <= p < |data| && c.state.Field? && Token(data[p]) != NUL
    requires Tracks(a, data[start..p], c, Flushed(m, FieldData, mark, data, p), n0 + (p - start), d)
    ensures Tracks(a, data[start..p + 1], InField(c, data[p]), Flushed(m, FieldData, mark, data, p + 1),
                   n0 + (p + 1 - start), d)
    ensures InField(c, data[p]).state == c.state && InField(c, data[p]).nread == c.nread
    ensures c.headerState.General? ==> InField(c, data[p]) == c
  {
    hide Feed1, Run;
    FieldAdvance(a, data[start..p], c, Flushed(m, FieldData, mark, data, p), n0 + (p - start), d, data[p]);
    FlushedSnoc(m, FieldData, mark, data, p);
    assert data[start..p] + [data[p]] == data[start..p + 1];
  }

  lemma EndField(a: Parser, data: string, start: nat, mark: nat, p: nat, c: Control, m: Message, n0: nat,
                 d: seq<Request>)
    requires mark <= start <= p < |data| && c.state.Field? && Token(data[p]) == NUL
    requires Tracks(a, data[start..p], c, Flushed(m, FieldData, mark, data, p), n0 + (p - start), d)
    ensures Run(a, data[start..p + 1]) ==
            var n := n0 + (p + 1 - start);
            if n > MAX_HEADER_SIZE then Failed(HeaderOverflow, d)
            else if data[p] != ':' then Failed(InvalidHeaderToken, d)
            else More(Parser(c.(nread := n, state := DiscardWs), Flushed(m, FieldData, mark, data, p), d))
  {
    hide Feed1, Run;
    RunNext(a, data[start..p], data[p]);
    assert data[start..p] + [data[p]] == data[start..p + 1];
    FieldEndFeed(Parser(c.(nread := n0 + (p - start)), Flushed(m, FieldData, mark, data, p), d), data[p]);
  }
}
