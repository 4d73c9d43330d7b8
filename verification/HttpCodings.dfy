/** Values of Transfer-Encoding: which lists of codings the parser takes for chunked. */
module HttpCodings {
  import opened Basics
  import opened HttpChars
  import opened HttpControl
  import opened HttpSyntax
  import opened HttpValues
  import HttpNames

  /** Without the spaces at its beginning. */
  function Skip(s: string): string {
    if s != "" && s[0] == ' ' then Skip(s[1..]) else s
  }

  /** A comma behind the coding `t` ends it.  Behind a beginning of "chunked", and behind "chunked"
      itself, the parser overlooks the comma. */
  predicate EndsCoding(t: string) {
    t != "" && !Begins(t, "chunked") && !IsWord(Bare(t), "chunked")
  }

  /** Characters that a coding behind a comma can start with: or-ing with 0x20 makes tokens of some that
      are none, and none of the underscore. */
  predicate StartsCoding(ch: char) {
    (TokenByte(ch) && ch != '_') || ch == '@' || ch == '\\'
  }

  /** Where the last coding of a list starts; nothing once a coding has started with a character that
      no coding can start with. */
  function CodingStart(s: string): (r: Option<nat>)
    requires s != ""
    ensures r.Some? ==> r.value <= |s|
  {
    var k := |s| - 1;
    if k == 0 then Some(0)
    else
      var r := CodingStart(s[..k]);
      if r.None? then None
      else
        var t := Skip(s[r.value..k]);
        if s[k] == ',' && EndsCoding(t) then Some(k + 1)
        else if t == "" && s[k] != ' ' && !StartsCoding(s[k]) then None
        else r
  }

  /** The last coding of the list is "chunked", up to case and spaces around it. */
  predicate EndsChunked(value: string)
    requires value != ""
  {
    var r := CodingStart(value);
    r.Some? && IsWord(Bare(Skip(value[r.value..])), "chunked")
  }

  /** How far the coding `t` has been matched. */
  predicate CodingFits(t: string, h: Scan) {
    if t == "" then h == Scan(TokenStart, 0)
    else if |t| < |CHUNKED| && Begins(t, CHUNKED) then h == Scan(MatchingChunked, |t| - 1)
    else if IsWord(Bare(t), CHUNKED) then h == Scan(ChunkedValue, |CHUNKED| - 1)
    else h.kind.EncodingToken?
  }

  predicate ListFits(s: string, h: Scan)
    requires s != ""
  {
    match CodingStart(s)
    case None => h.kind.General?
    case Some(b) => CodingFits(Skip(s[b..]), h)
  }

  lemma {:induction false} SkipSnoc(s: string, ch: char)
    ensures Skip(s + [ch]) == if Skip(s) != "" then Skip(s) + [ch] else if ch == ' ' then "" else [ch]
  {
    var t := s + [ch];
    if s != "" && s[0] == ' ' {
      SkipSnoc(s[1..], ch);
      assert t[1..] == s[1..] + [ch];
    } else if s == "" {
      assert t == [ch] && t[1..] == "";
    }
  }

  // ---------------------------------------------------------------- one byte

  /** What the matcher does with a byte of a list. */
  lemma CodingByte(h: Scan, length: uint64, ch: char)
    requires FieldByte(ch) && (h.kind.TokenStart? || h.kind.EncodingToken? || h.kind.ChunkedValue? || h.kind.General?)
    ensures ValueByte(h, length, ch) ==
            InValue(if h.kind.TokenStart? then
                      if Lower(ch) == 'c' then h.(kind := MatchingChunked)
                      else if ch == ' ' then h
                      else if StartsCoding(ch) then h.(kind := EncodingToken)
                      else h.(kind := General)
                    else if h.kind.EncodingToken? then if ch == ',' then Scan(TokenStart, 0) else h
                    else if h.kind.ChunkedValue? then if ch == ' ' then h else h.(kind := EncodingToken)
                    else h, length)
  {
    FieldTable(ch);
    CodingTable(ch);
    LowerSpace(ch);
    hide StartsCoding, FieldByte, IsHeaderChar, Token, Lower;
  }

  lemma LowerSpace(ch: char)
    requires FieldByte(ch)
    ensures (Lower(ch) == ' ' <==> ch == ' ') && Lower(ch) != '\t'
  {
  }

  /** Which characters the token table takes for the start of a coding. */
  lemma CodingTable(ch: char)
    requires FieldByte(ch)
    ensures StartsCoding(ch) <==> Lower(ch) == 'c' || Token(Lower(ch)) != NUL
    ensures !StartsCoding(' ') && !StartsCoding(',') && (Lower(ch) == 'c' ==> ch == 'c' || ch == 'C')
  {
    HttpNames.TokenTable(Lower(ch));
    hide Token;
    if ch as int < 64 || 96 <= ch as int < 128 {
      assert Lower(ch) == ch || ch as int == 9;
    } else if ch as int < 96 {
      MiddleTable(ch);
    }
  }

  lemma MiddleTable(ch: char)
    requires 64 <= ch as int < 96
    ensures StartsCoding(ch) <==> TokenByte(Lower(ch))
  {
  }

  lemma ChunkedByte(length: uint64, k: nat, ch: char)
    requires 1 <= k < |CHUNKED| && FieldByte(ch)
    ensures ValueByte(Scan(MatchingChunked, k - 1), length, ch) ==
            InValue(Scan(if Lower(ch) != CHUNKED[k] then EncodingToken
                         else if k == |CHUNKED| - 1 then ChunkedValue else MatchingChunked, k), length)
  {
  }

  /** A byte inside the same coding. */
  lemma CodingSnoc(t: string, h: Scan, length: uint64, ch: char)
    requires t != "" && CodingFits(t, h) && FieldByte(ch) && !(ch == ',' && EndsCoding(t))
    ensures var v := ValueByte(h, length, ch);
            v.InValue? && v.contentLength == length && CodingFits(t + [ch], v.scan)
  {
    hide ValueByte, Begins, Bare, IsWord;
    BareSnoc(t, ch);
    ShortBare(t, CHUNKED);
    ShortBare(t + [ch], CHUNKED);
    LongBegins(t, CHUNKED);
    WholeWord(t);
    if |t| < |CHUNKED| {
      PlainWords();
      BeginsSnoc(t, CHUNKED, ch);
      WordLength(t + [ch], CHUNKED);
    }
    if |t| < |CHUNKED| && Begins(t, CHUNKED) {
      ChunkedByte(length, |t|, ch);
      NoSpaceNext(|t|, ch);
    } else {
      WordLength(t + [ch], CHUNKED);
      CodingByte(h, length, ch);
    }
  }

  lemma LongBegins(t: string, w: string)
    ensures |t| > |w| ==> !Begins(t, w)
    ensures |t| == |w| && Begins(t, w) ==> IsWord(t, w)
  {
    if |t| == |w| {
      assert w[..|t|] == w;
    }
  }

  lemma WholeWord(t: string)
    ensures IsWord(t, CHUNKED) ==> Bare(t) == t
  {
    if IsWord(t, CHUNKED) {
      assert LowerCase(t[6]) == Lowered(t)[6] == 'd';
    }
  }

  lemma WordLength(t: string, w: string)
    ensures IsWord(t, w) ==> |t| == |w|
  {
  }

  lemma NoSpaceNext(k: nat, ch: char)
    requires k < |CHUNKED|
    ensures Lower(ch) == CHUNKED[k] ==> ch != ' '
  {
  }

  /** The first byte of a coding behind a comma. */
  lemma CodingFirst(h: Scan, length: uint64, ch: char)
    requires CodingFits("", h) && FieldByte(ch) && ch != ' ' && StartsCoding(ch)
    ensures var v := ValueByte(h, length, ch);
            v.InValue? && v.contentLength == length && CodingFits([ch], v.scan)
  {
    hide ValueByte;
    CodingByte(h, length, ch);
    FirstFits(ch);
  }

  function EncodingStart(ch: char): HeaderState {
    if Lower(ch) == 'c' then MatchingChunked else EncodingToken
  }

  lemma FirstFits(ch: char)
    requires FieldByte(ch)
    ensures CodingFits([ch], Scan(EncodingStart(ch), 0))
    ensures Lower(ch) != 'c' ==> forall i :: CodingFits([ch], Scan(EncodingToken, i))
  {
    ShortBare([ch], CHUNKED);
    assert CHUNKED[..1][0] == 'c';
  }

  // ---------------------------------------------------------------- whole values

  lemma ListStep(s: string, h: Scan, length: uint64, ch: char)
    requires s != "" && ListFits(s, h) && FieldByte(ch)
    ensures var v := ValueByte(h, length, ch);
            v.InValue? && v.contentLength == length && ListFits(s + [ch], v.scan)
  {
    hide ValueByte, CodingFits, EndsCoding, StartsCoding, Skip, FieldByte;
    var u := s + [ch];
    assert u[..|s|] == s;
    match CodingStart(s) {
      case None => CodingByte(h, length, ch);
      case Some(b) =>
        var t := Skip(s[b..]);
        assert u[b..] == s[b..] + [ch] && u[b..|s|] == s[b..];
        SkipSnoc(s[b..], ch);
        BlankFits(h);
        if ch == ',' && EndsCoding(t) {
          EndedByte(t, h, length);
          SkipNothing();
          assert u[|u|..] == "";
          BlankFits(Scan(TokenStart, 0));
        } else if t != "" {
          CodingSnoc(t, h, length, ch);
        } else if ch != ' ' && StartsCoding(ch) {
          CodingFirst(h, length, ch);
        } else {
          CodingTable(ch);
          CodingByte(h, length, ch);
        }
    }
  }

  lemma SkipNothing()
    ensures Skip("") == ""
  {
  }

  lemma BlankFits(h: Scan)
    ensures CodingFits("", h) <==> h == Scan(TokenStart, 0)
  {
  }

  lemma EndedByte(t: string, h: Scan, length: uint64)
    requires CodingFits(t, h) && EndsCoding(t)
    ensures ValueByte(h, length, ',') == InValue(Scan(TokenStart, 0), length)
  {
    hide Bare, IsWord;
    CodingByte(h, length, ',');
  }

  lemma {:induction false} ListFold(s: string, length: uint64)
    requires s != "" && s[0] != ' ' && forall i :: 0 <= i < |s| ==> FieldByte(s[i])
    ensures var v := ValueFold(Scan(EncodingStart(s[0]), 0), length, s[1..]);
            v.InValue? && v.contentLength == length && ListFits(s, v.scan)
  {
    hide ValueByte, ListFits;
    var k := |s| - 1;
    if k == 0 {
      ListFirst(s);
    } else {
      var t := s[..k];
      ListFold(t, length);
      assert s[1..][..k - 1] == t[1..] && s == t + [s[k]];
      ListStep(t, ValueFold(Scan(EncodingStart(s[0]), 0), length, t[1..]).scan, length, s[k]);
    }
  }

  lemma ListFirst(s: string)
    requires |s| == 1 && s[0] != ' ' && FieldByte(s[0])
    ensures ListFits(s, Scan(EncodingStart(s[0]), 0))
  {
    FirstFits(s[0]);
    assert s == [s[0]] && s[0..] == s;
  }

  /** For every value of Transfer-Encoding: it is taken for chunked if and only if the last coding of
      its list is. */
  lemma EncodingExactly(value: string, length: uint64)
    requires value != "" && value[0] != ' ' && forall i :: 0 <= i < |value| ==> FieldByte(value[i])
    ensures var v := ValueFold(Scan(EncodingStart(value[0]), 0), length, value[1..]);
            && v.InValue? && v.contentLength == length
            && (v.scan.kind.ChunkedValue? <==> EndsChunked(value))
            && !v.scan.kind.KeepAliveValue? && !v.scan.kind.CloseValue?
  {
    hide ValueFold, CodingStart;
    ListFold(value, length);
    var r := CodingStart(value);
    if r.Some? {
      ChunkedFits(Skip(value[r.value..]), ValueFold(Scan(EncodingStart(value[0]), 0), length, value[1..]).scan);
    }
  }

  lemma ChunkedFits(t: string, h: Scan)
    requires CodingFits(t, h)
    ensures h.kind.ChunkedValue? <==> IsWord(Bare(t), CHUNKED)
    ensures !h.kind.KeepAliveValue? && !h.kind.CloseValue?
  {
    ShortBare(t, CHUNKED);
  }

  // ---------------------------------------------------------------- what the lists are

  /** The single coding "chunked". */
  lemma ChunkedAlone(value: string)
    requires value != "" && value[0] != ' ' && IsWord(Bare(value), CHUNKED)
    ensures EndsChunked(value)
  {
    hide CodingStart, Bare, Token;
    NoComma(value);
    OneCoding(value);
    assert value[0..] == value && Skip(value) == value;
  }

  lemma NoComma(value: string)
    requires IsWord(Bare(value), CHUNKED)
    ensures forall i :: 0 <= i < |value| ==> value[i] != ','
  {
    hide Bare, LowerCase;
    BareFits(value);
    PlainWords();
    forall i | 0 <= i < |value| ensures value[i] != ',' {
      if i < |Bare(value)| {
        assert LowerCase(value[i]) == Lowered(Bare(value))[i] == CHUNKED[i];
        WordByte(value[i], CHUNKED[i]);
      }
    }
  }

  /** A coding that is not even the beginning of "chunked", a comma, and "chunked": taken for chunked. */
  lemma TwoCodings(x: string, gap: string)
    requires EndsCoding(x) && x[0] != ' ' && (forall i :: 0 <= i < |x| ==> x[i] != ',')
    requires forall i :: 0 <= i < |gap| ==> gap[i] == ' '
    ensures EndsChunked(x + "," + gap + CHUNKED)
  {
    hide CodingStart, EndsCoding, Skip, Bare, IsWord;
    AfterComma(x);
    var front, y := x + ",", gap + CHUNKED;
    ChunkedChars(gap);
    LastCoding(front, y);
    assert front + y == x + "," + gap + CHUNKED;
    assert (front + y)[|front|..] == y;
    SkipGap(gap, CHUNKED);
    ChunkedWord();
  }

  /** Behind a beginning of "chunked", or "chunked" itself, the comma is overlooked: so the list
      "chunked, chunked" is not taken for chunked. */
  lemma CommaOverlooked(x: string, y: string)
    requires x != "" && x[0] != ' ' && !EndsCoding(x) && (forall i :: 0 <= i < |x| ==> x[i] != ',')
    requires forall i :: 0 <= i < |y| ==> y[i] != ','
    ensures !EndsChunked(x + "," + y)
  {
    hide CodingStart, EndsCoding, Bare, IsWord;
    var value := x + "," + y;
    StartKept(x, y);
    assert value[0..] == value && Skip(value) == value && value[|x|] == ',';
    if IsWord(Bare(value), CHUNKED) {
      NoComma(value);
      assert false;
    }
  }

  lemma {:induction false} StartKept(x: string, y: string)
    requires x != "" && x[0] != ' ' && !EndsCoding(x) && (forall i :: 0 <= i < |x| ==> x[i] != ',')
    requires forall i :: 0 <= i < |y| ==> y[i] != ','
    ensures CodingStart(x + "," + y) == Some(0)
  {
    hide EndsCoding, Token;
    var value := x + "," + y;
    var k := |value| - 1;
    if y == "" {
      OneCoding(x);
      assert value[..k] == x && value[0..k] == x && Skip(x) == x;
    } else {
      StartKept(x, y[..|y| - 1]);
      assert value[..k] == x + "," + y[..|y| - 1] && value[0..k] == value[..k];
      assert Skip(value[..k]) == value[..k] && value[k] == y[|y| - 1];
    }
  }

  lemma ChunkedChars(gap: string)
    requires forall i :: 0 <= i < |gap| ==> gap[i] == ' '
    ensures var y := gap + CHUNKED; forall i :: 0 <= i < |y| ==>
            y[i] != ',' && (y[i] == ' ' || StartsCoding(y[i]))
  {
    assert forall i :: 0 <= i < |CHUNKED| ==> 'c' <= CHUNKED[i] <= 'u';
  }

  lemma ChunkedWord()
    ensures IsWord(Bare(CHUNKED), CHUNKED)
  {
    WholeWord(CHUNKED);
  }

  lemma AfterComma(x: string)
    requires EndsCoding(x) && x[0] != ' ' && (forall i :: 0 <= i < |x| ==> x[i] != ',')
    ensures CodingStart(x + ",") == Some(|x| + 1)
  {
    assert x != "";
    hide EndsCoding;
    OneCoding(x);
    assert Skip(x) == x;
    CommaStep(x);
  }

  lemma CommaStep(x: string)
    requires x != "" && EndsCoding(x) && CodingStart(x) == Some(0) && Skip(x) == x
    ensures CodingStart(x + ",") == Some(|x| + 1)
  {
    hide EndsCoding, Skip, Token, Lower;
    assert (x + ",")[..|x|] == x && x[0..|x|] == x && (x + ",")[0..|x|] == x;
  }

  lemma {:induction false} SkipGap(gap: string, x: string)
    requires (forall i :: 0 <= i < |gap| ==> gap[i] == ' ') && x != "" && x[0] != ' '
    ensures Skip(gap + x) == x
  {
    if gap == "" {
      assert gap + x == x;
    } else {
      SkipGap(gap[1..], x);
      assert (gap + x)[1..] == gap[1..] + x;
    }
  }

  /** A coding goes on as long as no comma is met. */
  lemma {:induction false} LastCoding(front: string, y: string)
    requires front != "" && CodingStart(front) == Some(|front|)
    requires forall i :: 0 <= i < |y| ==> y[i] != ',' && (y[i] == ' ' || StartsCoding(y[i]))
    ensures CodingStart(front + y) == Some(|front|)
  {
    if y == "" {
      assert front + y == front;
    } else {
      var k := |y| - 1;
      LastCoding(front, y[..k]);
      assert (front + y)[..|front| + k] == front + y[..k];
    }
  }

  /** Without a comma there is one coding. */
  lemma {:induction false} OneCoding(x: string)
    requires x != "" && x[0] != ' ' && forall i :: 0 <= i < |x| ==> x[i] != ','
    ensures CodingStart(x) == Some(0)
  {
    if |x| > 1 {
      var k := |x| - 1;
      OneCoding(x[..k]);
      assert x[0..k][0] == x[0];
    }
  }
}
