/** Chunked bodies, section 4.1 of RFC 7230: every chunked writing of a body is read back. */
module HttpChunks {
  import opened Basics
  import opened HttpChars
  import opened HttpControl
  import opened HttpSyntax
  import opened HttpMessage
  import opened HttpSteps

  function HexValue(s: string): nat {
    if s == "" then 0
    else
      var k := |s| - 1;
      if Unhex(s[k]) >= 0 then HexValue(s[..k]) * 16 + Unhex(s[k]) else HexValue(s[..k])
  }

  /** The table of hexadecimal digits. */
  lemma HexTable(ch: char)
    ensures HexByte(ch) <==> Unhex(ch) != -1
  {
  }

  lemma HexMeans(ch: char, d: nat)
    requires HexOf(ch, d)
    ensures HexByte(ch) && Unhex(ch) == d
  {
  }

  /** A number in hexadecimal digits of either case. */
  predicate Writes(s: string, n: nat) {
    s != "" &&
    var k := |s| - 1;
    HexOf(s[k], n % 16) && if k == 0 then n < 16 else Writes(s[..k], n / 16)
  }

  /** Every number is read back from its digits. */
  lemma {:induction false} HexWritten(s: string, n: nat)
    requires Writes(s, n)
    ensures HexDigits(s) && HexValue(s) == n
  {
    hide HexOf, HexByte, Unhex;
    var k := |s| - 1;
    HexMeans(s[k], n % 16);
    if k == 0 {
      assert s[..k] == "";
    } else {
      HexWritten(s[..k], n / 16);
      assert forall i :: 0 <= i < k ==> HexByte(s[..k][i]) && s[..k][i] == s[i];
    }
  }

  predicate HexDigits(s: string) {
    |s| > 0 && forall i :: 0 <= i < |s| ==> HexByte(s[i])
  }

  /** A chunk size short enough for the overflow test. */
  predicate SizeText(s: string) {
    HexDigits(s) && HexValue(s[..|s| - 1]) <= (NO_LENGTH - 16) / 16
  }

  /** Chunk parameters: whatever follows a `;` or a space on the size line. */
  predicate Parameters(s: string) {
    s == "" || ((s[0] == ';' || s[0] == ' ') && forall i :: 0 <= i < |s| ==> s[i] != CR)
  }

  datatype Chunk = Chunk(size: string, parameters: string, data: string)

  function SizeLine(c: Chunk): string {
    c.size + c.parameters + "\r\n"
  }

  predicate IsSizeLine(c: Chunk) {
    SizeText(c.size) && Parameters(c.parameters) && |SizeLine(c)| <= MAX_HEADER_SIZE && HexValue(c.size) == |c.data|
  }

  lemma {:induction false} HexGrows(s: string, k: nat)
    requires k <= |s|
    ensures HexValue(s[..k]) <= HexValue(s)
    decreases |s|
  {
    if k < |s| {
      HexGrows(s[..|s| - 1], k);
      assert s[..|s| - 1][..k] == s[..k];
    } else {
      assert s[..k] == s;
    }
  }

  lemma SizeFirstFeed(p: Parser, ch: char)
    requires p.control.state.ChunkSizeStart? && p.control.nread == 0 && p.control.flags.chunked && Unhex(ch) != -1
    ensures Feed1(p, ch) ==
            More(p.(control := p.control.(state := ChunkSize, contentLength := Unhex(ch), nread := 1)))
  {
    hide Unhex;
    QuietFeed(p, ch, p.control.(state := ChunkSize, contentLength := Unhex(ch), nread := 1));
  }

  lemma SizeFeed(p: Parser, ch: char)
    requires p.control.state.ChunkSize? && p.control.flags.chunked && p.control.nread + 1 <= MAX_HEADER_SIZE
    requires Unhex(ch) != -1 && p.control.contentLength <= (NO_LENGTH - 16) / 16
    ensures p.control.contentLength * 16 + Unhex(ch) < NO_LENGTH
    ensures Feed1(p, ch) ==
            More(p.(control := p.control.(contentLength := p.control.contentLength * 16 + Unhex(ch),
                                          nread := p.control.nread + 1)))
  {
    assert ch != CR;
    hide Unhex;
    QuietFeed(p, ch,
              p.control.(contentLength := p.control.contentLength * 16 + Unhex(ch), nread := p.control.nread + 1));
  }

  /** Reading the digits of a chunk size computes their value, without wrap-around. */
  lemma {:induction false} SizeRun(p: Parser, s: string)
    requires p.control.state.ChunkSizeStart? && p.control.nread == 0 && p.control.flags.chunked
    requires SizeText(s) && |s| <= MAX_HEADER_SIZE
    ensures HexValue(s) < NO_LENGTH
    ensures Run(p, s) ==
            More(p.(control := p.control.(state := ChunkSize, contentLength := HexValue(s), nread := |s|)))
  {
    hide Feed1, Unhex, HexByte;
    var k := |s| - 1;
    HexTable(s[k]);
    assert s == s[..k] + [s[k]];
    if k == 0 {
      assert s[..0] == "";
      SizeFirstFeed(p, s[0]);
      RunOne(p, s[0]);
    } else {
      var init := s[..k];
      HexGrows(init, k - 1);
      assert init[..k - 1] == s[..k][..k - 1];
      SizeRun(p, init);
      SizeFeed(Run(p, init).parser, s[k]);
    }
  }

  lemma SizeOverflowFeed(p: Parser, ch: char)
    requires p.control.state.ChunkSize? && p.control.flags.chunked && p.control.nread + 1 <= MAX_HEADER_SIZE
    requires Unhex(ch) != -1 && p.control.contentLength > (NO_LENGTH - 16) / 16
    ensures Feed1(p, ch) == Failed(InvalidContentLength, p.delivered)
  {
    assert ch != CR;
    hide Unhex;
  }

  /** Digits of a chunk size are accepted if and only if they pass the overflow test; the size is then
      exact, and never the sentinel. */
  lemma {:induction false} SizeExactly(p: Parser, s: string)
    requires p.control.state.ChunkSizeStart? && p.control.nread == 0 && p.control.flags.chunked
    requires HexDigits(s) && |s| <= MAX_HEADER_SIZE
    ensures SizeText(s) ==> HexValue(s) < NO_LENGTH
    ensures Run(p, s) ==
            if SizeText(s)
                then More(p.(control := p.control.(state := ChunkSize, contentLength := HexValue(s), nread := |s|)))
            else Failed(InvalidContentLength, p.delivered)
  {
    hide Feed1, Unhex, HexByte;
    HexTable(s[|s| - 1]);
    if SizeText(s) {
      SizeRun(p, s);
    } else {
      var k := |s| - 1;
      var t := s[..k];
      assert t != "";
      SizeExactly(p, t);
      if SizeText(t) {
        SizeOverflowFeed(Run(p, t).parser, s[k]);
      } else {
        RunStopped(p, s, k);
      }
    }
  }

  /** A byte that is no digit, and ends no size, is refused. */
  lemma SizeRefused(p: Parser, s: string, ch: char)
    requires p.control.state.ChunkSizeStart? && p.control.nread == 0 && p.control.flags.chunked
    requires (s == "" || SizeText(s)) && |s| + 1 <= MAX_HEADER_SIZE && !HexByte(ch)
    requires s != "" ==> ch != CR && ch != ';' && ch != ' '
    ensures Run(p, s + [ch]) == Failed(InvalidChunkSize, p.delivered)
  {
    hide Run, Feed1, SizeText, HexByte, Unhex;
    HexTable(ch);
    if s == "" {
      BadSizeFeed(p, ch);
      RunOne(p, ch);
      assert s + [ch] == [ch];
    } else {
      SizeRun(p, s);
      BadSizeFeed(Run(p, s).parser, ch);
      RunPush(p, s, ch);
    }
  }

  lemma BadSizeFeed(p: Parser, ch: char)
    requires p.control.flags.chunked && Unhex(ch) == -1 && p.control.nread + 1 <= MAX_HEADER_SIZE
    requires (p.control.state.ChunkSizeStart? && p.control.nread == 0)
             || (p.control.state.ChunkSize? && ch != CR && ch != ';' && ch != ' ')
    ensures Feed1(p, ch) == Failed(InvalidChunkSize, p.delivered)
  {
    hide Unhex;
    StopOf(p, ch);
  }

  lemma ParameterFeed(p: Parser, ch: char)
    requires p.control.flags.chunked && p.control.nread + 1 <= MAX_HEADER_SIZE && ch != CR
    requires p.control.state.ChunkParameters? || (p.control.state.ChunkSize? && (ch == ';' || ch == ' '))
    ensures Feed1(p, ch) ==
            More(p.(control := p.control.(state := ChunkParameters, nread := p.control.nread + 1)))
  {
    QuietFeed(p, ch, p.control.(state := ChunkParameters, nread := p.control.nread + 1));
  }

  lemma {:induction false} ParametersRun(p: Parser, s: string)
    requires p.control.state.ChunkSize? && p.control.flags.chunked && Parameters(s)
    requires p.control.nread + |s| <= MAX_HEADER_SIZE
    ensures Run(p, s) == More(p.(control := p.control.(state := if s == "" then ChunkSize else ChunkParameters,
                                                       nread := p.control.nread + |s|)))
  {
    hide Feed1;
    if s != "" {
      var k := |s| - 1;
      ParametersRun(p, s[..k]);
      ParameterFeed(Run(p, s[..k]).parser, s[k]);
    }
  }

  lemma SizeCrFeed(p: Parser)
    requires p.control.state.ChunkSize? || p.control.state.ChunkParameters?
    requires p.control.flags.chunked && p.control.nread + 1 <= MAX_HEADER_SIZE
    ensures Feed1(p, CR) ==
            More(p.(control := p.control.(state := ChunkSizeAlmostDone, nread := p.control.nread + 1)))
  {
    QuietFeed(p, CR, p.control.(state := ChunkSizeAlmostDone, nread := p.control.nread + 1));
  }

  lemma SizeLfFeed(p: Parser)
    requires p.control.state.ChunkSizeAlmostDone? && p.control.flags.chunked && p.control.nread + 1 <= MAX_HEADER_SIZE
    ensures Feed1(p, LF) ==
            More(p.(control :=
                      if p.control.contentLength == 0
                      then p.control.(state := FieldStart, nread := 0, flags := p.control.flags.(trailing := true))
                      else p.control.(state := ChunkData, nread := 0)))
  {
    QuietFeed(p, LF, if p.control.contentLength == 0
                     then p.control.(state := FieldStart, nread := 0, flags := p.control.flags.(trailing := true))
                     else p.control.(state := ChunkData, nread := 0));
  }

  lemma SizeLineRun(p: Parser, c: Chunk)
    requires p.control.state.ChunkSizeStart? && p.control.nread == 0 && p.control.flags.chunked && IsSizeLine(c)
    ensures |c.data| < NO_LENGTH
    ensures Run(p, SizeLine(c)) ==
            More(p.(control :=
                      if c.data == ""
                      then p.control.(state := FieldStart, contentLength := 0,
                                      flags := p.control.flags.(trailing := true))
                      else p.control.(state := ChunkData, contentLength := |c.data|)))
  {
    hide Run, Feed1, HexValue, Unhex;
    SizeRun(p, c.size);
    ParametersRun(Run(p, c.size).parser, c.parameters);
    RunJoin(p, c.size, c.parameters);
    var s := c.size + c.parameters;
    SizeCrFeed(Run(p, s).parser);
    RunPush(p, s, CR);
    SizeLfFeed(Run(p, s + [CR]).parser);
    RunPush(p, s + [CR], LF);
    assert s + [CR] + [LF] == SizeLine(c);
  }

  lemma DataEndFeed(p: Parser)
    requires p.control.state.ChunkDataAlmostDone? && p.control.flags.chunked && p.control.contentLength == 0
    ensures Feed1(p, CR) == More(p.(control := p.control.(state := ChunkDataDone)))
  {
  }

  lemma DataDoneFeed(p: Parser)
    requires p.control.state.ChunkDataDone? && p.control.flags.chunked
    ensures Feed1(p, LF) == More(p.(control := p.control.(state := ChunkSizeStart, nread := 0)))
  {
  }

  function ChunkText(c: Chunk): string {
    SizeLine(c) + c.data + "\r\n"
  }

  /** One chunk: its data goes to the body and the next size line is expected. */
  lemma OneChunkRun(p: Parser, c: Chunk)
    requires p.control.state.ChunkSizeStart? && p.control.nread == 0 && p.control.flags.chunked
    requires IsSizeLine(c) && c.data != ""
    ensures Run(p, ChunkText(c)) ==
            More(p.(control := p.control.(contentLength := 0), message := OnBody(p.message, c.data)))
  {
    hide Run, Feed1, IsSizeLine, SizeLine;
    SizeLineRun(p, c);
    ChunkRun(Run(p, SizeLine(c)).parser, c.data);
    RunJoin(p, SizeLine(c), c.data);
    var s := SizeLine(c) + c.data;
    DataEndFeed(Run(p, s).parser);
    RunPush(p, s, CR);
    DataDoneFeed(Run(p, s + [CR]).parser);
    RunPush(p, s + [CR], LF);
    assert s + [CR] + [LF] == ChunkText(c);
  }

  function ChunksText(cs: seq<Chunk>): string {
    if cs == [] then "" else ChunksText(cs[..|cs| - 1]) + ChunkText(cs[|cs| - 1])
  }

  function ChunksData(cs: seq<Chunk>): string {
    if cs == [] then "" else ChunksData(cs[..|cs| - 1]) + cs[|cs| - 1].data
  }

  predicate AllChunks(cs: seq<Chunk>) {
    forall i :: 0 <= i < |cs| ==> IsSizeLine(cs[i]) && cs[i].data != ""
  }

  /** Any sequence of chunks delivers the concatenation of their data. */
  lemma {:induction false} ChunksRun(p: Parser, cs: seq<Chunk>)
    requires p.control.state.ChunkSizeStart? && p.control.nread == 0 && p.control.flags.chunked && AllChunks(cs)
    ensures var r := Run(p, ChunksText(cs));
            && r.More?
            && r.parser == p.(control := p.control.(contentLength := r.parser.control.contentLength),
                              message := OnBody(p.message, ChunksData(cs)))
  {
    hide Run, IsSizeLine, ChunkText;
    if cs == [] {
      RunEmpty(p, ChunksText(cs));
      assert p.message.body + "" == p.message.body;
    } else {
      var k := |cs| - 1;
      ChunksRun(p, cs[..k]);
      OneChunkRun(Run(p, ChunksText(cs[..k])).parser, cs[k]);
      RunJoin(p, ChunksText(cs[..k]), ChunkText(cs[k]));
      OnDataAppend(p.message, BodyData, ChunksData(cs[..k]), cs[k].data);
    }
  }
}
