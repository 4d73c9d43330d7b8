/** Header values: decimal lengths and the words that decide how a request is framed and whether its
    connection stays open. */
module HttpValues {
  import opened Basics
  import opened HttpChars
  import opened HttpControl
  import opened HttpSyntax
  import opened HttpMessage
  import opened HttpSteps

  /** Without the spaces at its end. */
  function Bare(s: string): string {
    if s != "" && s[|s| - 1] == ' ' then Bare(s[..|s| - 1]) else s
  }

  predicate Digits(s: string) {
    |s| > 0 && forall i :: 0 <= i < |s| ==> IsNum(s[i])
  }

  /** A Content-Length value short enough for the overflow test. */
  predicate LengthValue(s: string) {
    Digits(s) && DecimalValue(s[..|s| - 1]) <= (NO_LENGTH - 10) / 10
  }

  /** Equal to the lower-case word `w` up to case. */
  predicate IsWord(s: string, w: string) {
    Lowered(s) == w
  }

  /** Lower-case letters and hyphens. */
  predicate PlainWord(w: string) {
    forall i :: 0 <= i < |w| ==> 'a' <= w[i] <= 'z' || w[i] == '-'
  }

  lemma PlainWords()
    ensures PlainWord(CHUNKED) && PlainWord(KEEP_ALIVE) && PlainWord(CLOSE)
  {
  }

  /** Or-ing with 0x20 is enough to compare with a letter or a hyphen, but for CR. */
  lemma WordByte(ch: char, x: char)
    requires 'a' <= x <= 'z' || x == '-'
    ensures LowerCase(ch) == x <==> Lower(ch) == x && ch != CR
    ensures LowerCase(ch) == x ==> FieldByte(ch) && ch != ' ' && ch != ','
  {
  }

  /** The header table agrees with the standard. */
  lemma FieldTable(ch: char)
    ensures FieldByte(ch) <==> IsHeaderChar(ch) && ch != CR && ch != LF
  {
  }

  /** A value that begins with any byte but white space and line ends, which the parser does not look
      up in its table. */
  predicate RawText(s: string) {
    && |s| > 0 && s[0] != ' ' && s[0] != '\t' && s[0] != CR && s[0] != LF
    && forall i :: 1 <= i < |s| ==> FieldByte(s[i])
  }

  predicate ValueText(s: string) {
    && |s| > 0 && s[0] != ' ' && s[0] != '\t'
    && forall i :: 0 <= i < |s| ==> FieldByte(s[i])
  }

  /** Value bytes after the first. */
  function ValueFold(h: Scan, length: uint64, s: string): ValueResult {
    if s == "" then InValue(h, length)
    else
      var k := |s| - 1;
      var r := ValueFold(h, length, s[..k]);
      if r.BadValue? then r else ValueByte(r.scan, r.contentLength, s[k])
  }

  predicate NoLineEnd(s: string) {
    forall i :: 0 <= i < |s| ==> s[i] != CR && s[i] != LF
  }

  lemma {:induction false} ValueRun(p: Parser, s: string)
    requires p.control.state.Value? && !p.message.inField && NoLineEnd(s)
    requires p.control.nread + |s| <= MAX_HEADER_SIZE
    requires ValueFold(ScanOf(p.control), p.control.contentLength, s).InValue?
    ensures var v := ValueFold(ScanOf(p.control), p.control.contentLength, s);
            Run(p, s) == More(Parser(AfterValue(p.control, v).(nread := p.control.nread + |s|),
                                     OnValue(p.message, s), p.delivered))
  {
    hide Feed1, ValueByte;
    if s == "" {
      assert p.message.value + "" == p.message.value;
    } else {
      var k := |s| - 1;
      ValueRun(p, s[..k]);
      ValueFeed(Run(p, s[..k]).parser, s[k]);
      OnDataAppend(p.message, ValueData, s[..k], [s[k]]);
      assert s == s[..k] + [s[k]];
    }
  }

  /** A value that is refused ends the run, whatever follows. */
  lemma {:induction false} BadValueRun(p: Parser, s: string)
    requires p.control.state.Value? && !p.message.inField && NoLineEnd(s)
    requires p.control.nread + |s| <= MAX_HEADER_SIZE
    requires ValueFold(ScanOf(p.control), p.control.contentLength, s).BadValue?
    ensures Run(p, s) == Failed(ValueFold(ScanOf(p.control), p.control.contentLength, s).errno, p.delivered)
  {
    hide Feed1, ValueByte;
    var k := |s| - 1;
    if ValueFold(ScanOf(p.control), p.control.contentLength, s[..k]).BadValue? {
      BadValueRun(p, s[..k]);
    } else {
      ValueRun(p, s[..k]);
      ValueFeed(Run(p, s[..k]).parser, s[k]);
    }
  }

  lemma {:induction false} GeneralFold(h: Scan, length: uint64, s: string)
    requires h.kind.General? && forall i :: 0 <= i < |s| ==> IsHeaderChar(s[i])
    ensures ValueFold(h, length, s) == InValue(h, length)
  {
    if s != "" {
      GeneralFold(h, length, s[..|s| - 1]);
    }
  }

  lemma {:induction false} DecimalGrows(s: string, k: nat)
    requires k <= |s|
    ensures DecimalValue(s[..k]) <= DecimalValue(s)
    decreases |s|
  {
    if k < |s| {
      DecimalGrows(s[..|s| - 1], k);
      assert s[..|s| - 1][..k] == s[..k];
    } else {
      assert s[..k] == s;
    }
  }

  /** The word that is being matched, and the state that a complete match leads to. */
  function WordOf(m: HeaderState): string {
    if m.MatchingChunked? then CHUNKED else if m.MatchingKeepAlive? then KEEP_ALIVE else CLOSE
  }

  function MatchedOf(m: HeaderState): HeaderState {
    if m.MatchingChunked? then ChunkedValue else if m.MatchingKeepAlive? then KeepAliveValue else CloseValue
  }

  lemma {:induction false} BareFits(s: string)
    ensures |Bare(s)| <= |s| && (s != "" && s[0] != ' ' ==> Bare(s) != "" && Bare(s)[0] == s[0])
    ensures Bare(s) == s[..|Bare(s)|] && forall i :: |Bare(s)| <= i < |s| ==> s[i] == ' '
  {
    if s != "" && s[|s| - 1] == ' ' {
      BareFits(s[..|s| - 1]);
    }
  }

  // ---------------------------------------------------------------- any value of Content-Length

  /** One more byte of a Content-Length, none of whose digits wrap the length around. */
  lemma LengthByte(k: HeaderState, length: uint64, ch: char)
    requires k.ContentLengthNum? || k.ContentLengthWs?
    ensures ValueByte(Scan(k, 0), length, ch) ==
            if !IsHeaderChar(ch) then BadValue(InvalidHeaderToken)
            else if ch == ' ' then InValue(Scan(ContentLengthWs, 0), length)
            else if k.ContentLengthNum? && IsNum(ch) && length <= (NO_LENGTH - 10) / 10
            then InValue(Scan(k, 0), length * 10 + (ch as int - '0' as int))
            else BadValue(InvalidContentLength)
  {
  }

  /** Where the reading of a Content-Length stands after the text `s`, and with which length. */
  function LengthRead(s: string): ValueResult
    requires LengthValue(Bare(s)) && DecimalValue(Bare(s)) < NO_LENGTH && s != ""
  {
    InValue(Scan(if s[|s| - 1] == ' ' then ContentLengthWs else ContentLengthNum, 0), DecimalValue(Bare(s)))
  }

  lemma {:induction false} LengthBound(s: string)
    requires LengthValue(s)
    ensures DecimalValue(s) < NO_LENGTH
  {
  }

  /** A digit more keeps a Content-Length acceptable exactly when the overflow test passes. */
  lemma LengthSnoc(s: string, ch: char)
    requires s != ""
    ensures LengthValue(Bare(s + [ch])) <==>
            if ch == ' ' then LengthValue(Bare(s))
            else IsNum(ch) && LengthValue(s) && DecimalValue(s) <= (NO_LENGTH - 10) / 10
    ensures IsNum(ch) ==> DecimalValue(s + [ch]) == DecimalValue(s) * 10 + (ch as int - '0' as int)
    ensures s[|s| - 1] != ' ' ==> Bare(s) == s
    ensures s[|s| - 1] == ' ' ==> !LengthValue(s)
  {
    hide DecimalValue, LengthValue, Bare;
    BareSnoc(s, ch);
    BareLast(s);
    DigitsSnoc(s, ch);
    DecimalSnoc(s, ch);
  }

  lemma BareLast(s: string)
    requires s != ""
    ensures s[|s| - 1] != ' ' ==> Bare(s) == s
    ensures s[|s| - 1] == ' ' ==> !LengthValue(s)
  {
  }

  lemma DigitsSnoc(s: string, ch: char)
    requires s != ""
    ensures LengthValue(s + [ch]) <==> IsNum(ch) && LengthValue(s) && DecimalValue(s) <= (NO_LENGTH - 10) / 10
  {
    hide DecimalValue;
    var t := s + [ch];
    assert t[..|s|] == s && t[|s|] == ch;
    assert forall i :: 0 <= i < |s| ==> t[i] == s[i];
    DecimalGrows(s, |s| - 1);
  }

  lemma DecimalSnoc(s: string, ch: char)
    ensures IsNum(ch) ==> DecimalValue(s + [ch]) == DecimalValue(s) * 10 + (ch as int - '0' as int)
  {
    assert (s + [ch])[..|s|] == s;
  }

  /** A value of Content-Length is accepted if and only if it is a decimal number that passes the
      overflow test, with spaces behind it; the length is then exact and never the sentinel. */
  lemma {:induction false} LengthExactly(s: string)
    requires s != "" && IsNum(s[0])
    ensures var v := ValueFold(Scan(ContentLengthNum, 0), s[0] as int - '0' as int, s[1..]);
            && (v.InValue? <==> LengthValue(Bare(s)))
            && (v.InValue? ==> DecimalValue(Bare(s)) < NO_LENGTH && v == LengthRead(s))
            && (v.BadValue? && (forall i :: 0 <= i < |s| ==> FieldByte(s[i])) ==> v.errno == InvalidContentLength)
  {
    hide ValueByte, LengthValue, Bare, DecimalValue;
    var k := |s| - 1;
    if k == 0 {
      OneDigit(s);
    } else {
      var t := s[..k];
      LengthExactly(t);
      assert s[1..][..k - 1] == t[1..] && s == t + [s[k]];
      LengthSnoc(t, s[k]);
      BareSnoc(t, s[k]);
      var v := ValueFold(Scan(ContentLengthNum, 0), s[0] as int - '0' as int, t[1..]);
      if v.InValue? {
        LengthByte(v.scan.kind, v.contentLength, s[k]);
        if LengthValue(Bare(s)) {
          LengthBound(Bare(s));
        }
      }
    }
  }

  lemma OneDigit(s: string)
    requires |s| == 1 && IsNum(s[0])
    ensures Bare(s) == s && LengthValue(s) && DecimalValue(s) == s[0] as int - '0' as int
  {
    assert s[..0] == "";
  }

  /** The accepting half, for a value known to be acceptable. */
  lemma LengthPadded(s: string)
    requires LengthValue(Bare(s)) && s != ""
    ensures DecimalValue(Bare(s)) < NO_LENGTH && IsNum(s[0])
    ensures ValueFold(Scan(ContentLengthNum, 0), s[0] as int - '0' as int, s[1..]) == LengthRead(s)
  {
    hide ValueFold, DecimalValue;
    BareFits(s);
    LengthExactly(s);
  }

  // ---------------------------------------------------------------- any value of Connection

  /** `s` is the beginning of the word `w`, up to case. */
  predicate Begins(s: string, w: string) {
    |s| <= |w| && IsWord(s, w[..|s|])
  }

  /** How far a value that begins like `m`'s word has been matched. */
  predicate Progress(s: string, m: HeaderState, h: Scan)
    requires s != ""
  {
    var w := WordOf(m);
    if |s| < |w| && Begins(s, w) then h == Scan(m, |s| - 1)
    else if IsWord(Bare(s), w) then h == Scan(MatchedOf(m), |w| - 1)
    else h.kind.General?
  }

  lemma BareSnoc(s: string, ch: char)
    ensures Bare(s + [ch]) == if ch == ' ' then Bare(s) else s + [ch]
  {
    assert (s + [ch])[..|s|] == s;
  }

  lemma BeginsSnoc(s: string, w: string, ch: char)
    requires |s| < |w| && FieldByte(ch) && PlainWord(w)
    ensures Begins(s + [ch], w) <==> Begins(s, w) && Lower(ch) == w[|s|]
    ensures |s| + 1 == |w| ==> (IsWord(s + [ch], w) <==> Begins(s + [ch], w))
  {
    var t := s + [ch];
    hide LowerCase, Lower;
    WordByte(ch, w[|s|]);
    assert Lowered(t) == Lowered(s) + [LowerCase(ch)] && w[..|t|] == w[..|s|] + [w[|s|]];
    assert Lowered(t)[..|s|] == Lowered(s) && Lowered(t)[|s|] == LowerCase(ch);
    assert w[..|t|][..|s|] == w[..|s|];
    if |t| == |w| {
      assert w[..|t|] == w;
    }
  }

  lemma MatchByte(m: HeaderState, length: uint64, k: nat, ch: char)
    requires (m.MatchingKeepAlive? || m.MatchingClose?) && 1 <= k < |WordOf(m)| && IsHeaderChar(ch)
    ensures ValueByte(Scan(m, k - 1), length, ch) ==
            InValue(Scan(if Lower(ch) != WordOf(m)[k] then General
                         else if k == |WordOf(m)| - 1 then MatchedOf(m) else m, k), length)
  {
  }

  lemma AfterMatch(m: HeaderState, length: uint64, k: nat, ch: char)
    requires (m.MatchingKeepAlive? || m.MatchingClose?) && IsHeaderChar(ch)
    ensures ValueByte(Scan(MatchedOf(m), k), length, ch) ==
            InValue(Scan(if ch == ' ' then MatchedOf(m) else General, k), length)
  {
  }

  lemma ProgressStep(s: string, m: HeaderState, h: Scan, length: uint64, ch: char)
    requires m.MatchingKeepAlive? || m.MatchingClose?
    requires s != "" && Progress(s, m, h) && FieldByte(ch)
    ensures var v := ValueByte(h, length, ch);
            v.InValue? && v.contentLength == length && Progress(s + [ch], m, v.scan)
  {
    hide ValueByte, Begins, Bare;
    var w := WordOf(m);
    var t := s + [ch];
    BareSnoc(s, ch);
    BareFits(s);
    BareFits(t);
    if |s| < |w| {
      BeginsSnoc(s, w, ch);
    }
    if |s| < |w| && Begins(s, w) {
      MatchByte(m, length, |s|, ch);
    } else if IsWord(Bare(s), w) {
      AfterMatch(m, length, |w| - 1, ch);
    } else {
      GeneralByte(h, length, ch);
    }
  }

  lemma GeneralByte(h: Scan, length: uint64, ch: char)
    requires h.kind.General? && IsHeaderChar(ch)
    ensures ValueByte(h, length, ch) == InValue(h, length)
  {
  }

  lemma {:induction false} ConnectionFold(s: string, m: HeaderState, length: uint64)
    requires m.MatchingKeepAlive? || m.MatchingClose?
    requires s != "" && Lower(s[0]) == WordOf(m)[0] && forall i :: 0 <= i < |s| ==> FieldByte(s[i])
    ensures var v := ValueFold(Scan(m, 0), length, s[1..]);
            v.InValue? && v.contentLength == length && Progress(s, m, v.scan)
  {
    hide ValueByte, Progress;
    var k := |s| - 1;
    if k == 0 {
      StartsMatching(s, m);
    } else {
      ConnectionFold(s[..k], m, length);
      assert s[1..][..k - 1] == s[..k][1..];
      assert s == s[..k] + [s[k]];
      ProgressStep(s[..k], m, ValueFold(Scan(m, 0), length, s[..k][1..]).scan, length, s[k]);
    }
  }

  lemma StartsMatching(s: string, m: HeaderState)
    requires m.MatchingKeepAlive? || m.MatchingClose?
    requires |s| == 1 && Lower(s[0]) == WordOf(m)[0] && FieldByte(s[0])
    ensures Progress(s, m, Scan(m, 0))
  {
  }

  function ConnectionStart(ch: char): HeaderState {
    if Lower(ch) == 'k' then MatchingKeepAlive else if Lower(ch) == 'c' then MatchingClose else General
  }

  /** A Connection value counts as keep-alive or close exactly when it is that word, up to case and
      spaces behind it. */
  lemma ConnectionValue(value: string, length: uint64)
    requires value != "" && value[0] != ' ' && forall i :: 0 <= i < |value| ==> FieldByte(value[i])
    ensures var v := ValueFold(Scan(ConnectionStart(value[0]), 0), length, value[1..]);
            && v.InValue? && v.contentLength == length && !v.scan.kind.ChunkedValue?
            && (v.scan.kind.KeepAliveValue? <==> IsWord(Bare(value), KEEP_ALIVE))
            && (v.scan.kind.CloseValue? <==> IsWord(Bare(value), CLOSE))
  {
    hide ValueFold, Bare, IsWord;
    var m := ConnectionStart(value[0]);
    PlainWords();
    FirstLetter(value, KEEP_ALIVE);
    FirstLetter(value, CLOSE);
    if m.General? {
      GeneralFold(Scan(m, 0), length, value[1..]);
    } else {
      ConnectionFold(value, m, length);
      ShortBare(value, WordOf(m));
    }
  }

  lemma FirstLetter(value: string, w: string)
    requires value != "" && value[0] != ' ' && w != "" && PlainWord(w)
    ensures IsWord(Bare(value), w) ==> Lower(value[0]) == w[0]
  {
    BareFits(value);
    if IsWord(Bare(value), w) {
      assert LowerCase(value[0]) == Lowered(Bare(value))[0] == w[0];
      WordByte(value[0], w[0]);
    }
  }

  lemma ShortBare(s: string, w: string)
    ensures |s| < |w| ==> !IsWord(Bare(s), w)
  {
    BareFits(s);
  }
}
