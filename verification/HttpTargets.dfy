/** Request targets: exactly which texts the parser takes for one. */
module HttpTargets {
  import opened Basics
  import opened HttpChars
  import opened HttpSyntax
  import opened HttpMethods
  import opened HttpControl
  import opened HttpMessage
  import opened HttpSteps

  const SEPARATOR := "://"

  // ---------------------------------------------------------------- states

  function PathState(s: string): State {
    if '?' !in s then Path
    else if '?' !in s[..|s| - 1] then QueryStringStart
    else QueryString
  }

  function HierState(s: string): State {
    if s == "" then ServerStart
    else if !Hier(s) then Dead
    else if HostEnd(s) < |s| then PathState(s[HostEnd(s)..])
    else if s[|s| - 1] == '@' then ServerWithAt
    else Server
  }

  function SchemeState(s: string): State {
    var n := LetterRun(s);
    if n == 0 then Dead
    else if n == |s| then Schema
    else if s[n..] == ":" then SchemaSlash
    else if s[n..] == ":/" then SchemaSlashSlash
    else if n + 3 <= |s| && s[n..n + 3] == SEPARATOR then HierState(s[n + 3..])
    else Dead
  }

  /** The state that the text of a target leads to, Dead if it is refused. */
  function StateOf(connect: bool, s: string): State {
    if connect then HierState(s)
    else if s == "" then SpacesBeforeUrl
    else if s[0] == '/' || s[0] == '*' then if PathText(s) then PathState(s) else Dead
    else SchemeState(s)
  }

  predicate NotBlank(ch: char) {
    ch != ' ' && ch != CR && ch != LF
  }

  /** A target may end here. */
  predicate MayEnd(s: State) {
    s.Server? || s.ServerWithAt? || s.Path? || s.QueryStringStart? || s.QueryString?
  }

  lemma TargetEnds(connect: bool, s: string)
    ensures Target(connect, s) <==> MayEnd(StateOf(connect, s))
  {
    if !connect && s != "" && s[0] != '/' && s[0] != '*' {
      var n := LetterRun(s);
    }
  }

  // ---------------------------------------------------------------- one byte

  lemma PathNext(s: string, ch: char)
    requires s != "" && PathText(s) && NotBlank(ch)
    ensures UrlNext(PathState(s), ch) == if PathByte(ch) then PathState(s + [ch]) else Dead
    ensures PathText(s + [ch]) <==> PathByte(ch)
  {
    var t := s + [ch];
    assert t[|s|] == ch && forall i :: 0 <= i < |s| ==> t[i] == s[i];
    assert t[..|t| - 1] == s;
    if '?' in s {
      assert '?' in t;
    }
  }

  lemma {:induction false} HostEndSnoc(s: string, ch: char)
    ensures HostEnd(s + [ch]) == if HostEnd(s) < |s| || ch == '/' || ch == '?' then HostEnd(s) else |s| + 1
  {
    if s != "" && s[0] != '/' && s[0] != '?' {
      HostEndSnoc(s[1..], ch);
      assert (s + [ch])[1..] == s[1..] + [ch];
    }
  }

  lemma {:induction false} LetterRunSnoc(s: string, ch: char)
    ensures LetterRun(s + [ch]) == if LetterRun(s) < |s| || !Letter(ch) then LetterRun(s) else |s| + 1
  {
    if s != "" && Letter(s[0]) {
      LetterRunSnoc(s[1..], ch);
      assert (s + [ch])[1..] == s[1..] + [ch];
    }
  }

  lemma HostBytes(ch: char)
    ensures HostByte(ch) <==> IsUserinfoChar(ch) || ch == '[' || ch == ']'
    ensures HostByte(ch) ==> ch != '@' && ch != '/' && ch != '?'
  {
  }

  lemma AuthoritySnoc(s: string, ch: char)
    ensures Authority(s + [ch]) <==>
            Authority(s) && (HostByte(ch) || (ch == '@' && (s == "" || s[|s| - 1] != '@')))
  {
    hide HostByte;
    HostBytes(ch);
    var t := s + [ch];
    assert t[|s|] == ch && forall i :: 0 <= i < |s| ==> t[i] == s[i];
    if Authority(t) {
      forall i | 0 <= i < |s| ensures HostByte(s[i]) || s[i] == '@' {
        assert t[i] == s[i];
      }
      forall i | 0 < i < |s| ensures !(s[i - 1] == '@' && s[i] == '@') {
        assert t[i - 1] == s[i - 1] && t[i] == s[i];
      }
    }
  }

  /** A byte in or behind the authority. */
  lemma HierNext(s: string, ch: char)
    requires NotBlank(ch) && !HierState(s).Dead?
    ensures HierState(s + [ch]) == UrlNext(HierState(s), ch)
  {
    hide HostEnd, Authority, HostByte, PathText, PathState, PathByte, UrlNext, IsUserinfoChar;
    var t, n := s + [ch], HostEnd(s);
    HostEndSnoc(s, ch);
    NothingBehind();
    if n < |s| {
      assert t[..n] == s[..n] && t[n..] == s[n..] + [ch];
      PathNext(s[n..], ch);
    } else {
      assert s[..n] == s && s[n..] == "";
      if ch == '/' || ch == '?' {
        assert t[..n] == s && t[n..] == [ch];
        PathFirst(ch);
      } else {
        assert t[..|t|] == t && t[|t|..] == "" && t[|t| - 1] == ch;
        AuthoritySnoc(s, ch);
        HostBytes(ch);
      }
      ServerByte(HierState(s), ch);
    }
  }

  lemma NothingBehind()
    ensures PathText("") && Authority("") && HostEnd("") == 0
  {
  }

  lemma PathFirst(ch: char)
    requires ch == '/' || ch == '?'
    ensures PathText([ch]) && PathState([ch]) == if ch == '/' then Path else QueryStringStart
  {
  }

  lemma ServerByte(s: State, ch: char)
    requires NotBlank(ch) && (s.ServerStart? || s.Server? || s.ServerWithAt?)
    ensures UrlNext(s, ch) ==
            if ch == '/' then Path
            else if ch == '?' then QueryStringStart
            else if ch == '@' then if s.ServerWithAt? then Dead else ServerWithAt
            else if HostByte(ch) then Server
            else Dead
  {
    HostBytes(ch);
  }

  /** A byte of an absolute form. */
  lemma SchemeNext(s: string, ch: char)
    requires NotBlank(ch) && s != "" && !SchemeState(s).Dead?
    ensures SchemeState(s + [ch]) == UrlNext(SchemeState(s), ch)
  {
    hide HierState, PathState, ServerNext, IsAlpha, IsUrlChar;
    var t, n := s + [ch], LetterRun(s);
    LetterRunSnoc(s, ch);
    if n == |s| {
      if LetterRun(t) == n {
        assert t[n..] == [ch];
      }
      OneByte(ch);
      LetterAlpha(ch);
    } else if |s| - n < 3 {
      assert t[n..] == s[n..] + [ch];
      SeparatorNext(s[n..], ch);
      HierBegins();
    } else {
      assert t[n..n + 3] == s[n..n + 3] && t[n + 3..] == s[n + 3..] + [ch];
      HierNext(s[n + 3..], ch);
    }
  }

  lemma OneByte(ch: char)
    ensures [ch] != ":/" && ([ch] == ":" <==> ch == ':')
  {
    assert [ch][0] == ch && ":"[0] == ':';
  }

  /** A byte of the separator. */
  lemma SeparatorNext(r: string, ch: char)
    requires r == ":" || r == ":/"
    ensures var t := r + [ch];
            && t != ":" && (t == ":/" <==> r == ":" && ch == '/')
            && (|t| >= 3 ==> t[3..] == "" && (t[..3] == SEPARATOR <==> ch == '/'))
  {
    var t := r + [ch];
    assert t[|r|] == ch;
    if |t| == 3 {
      assert t[..3] == t && SEPARATOR[2] == '/';
    } else {
      assert t[1] == ch && ":/"[1] == '/';
    }
  }

  lemma HierBegins()
    ensures HierState("") == ServerStart
  {
  }

  lemma LetterAlpha(ch: char)
    ensures Letter(ch) <==> IsAlpha(ch)
  {
  }

  /** One byte of a target, after any bytes. */
  lemma StateNext(connect: bool, s: string, ch: char)
    requires NotBlank(ch) && !StateOf(connect, s).Dead?
    ensures StateOf(connect, s + [ch]) == UrlNext(StateOf(connect, s), ch)
  {
    hide HierState, PathState, SchemeState, UrlNext, PathText;
    var t := s + [ch];
    if connect {
      HierNext(s, ch);
    } else if s == "" {
      assert t == [ch];
      FirstByte(ch);
    } else if s[0] == '/' || s[0] == '*' {
      PathNext(s, ch);
      PathAlive(s);
    } else {
      SchemeNext(s, ch);
    }
  }

  lemma PathAlive(s: string)
    ensures !PathState(s).Dead?
  {
  }

  lemma FirstByte(ch: char)
    requires NotBlank(ch)
    ensures UrlNext(SpacesBeforeUrl, ch) == StateOf(false, [ch])
  {
    LetterAlpha(ch);
  }

  // ---------------------------------------------------------------- no way back

  lemma PathPrefix(s: string, ch: char)
    requires PathText(s + [ch])
    ensures PathText(s)
  {
    forall i | 0 <= i < |s| ensures PathByte(s[i]) {
      assert (s + [ch])[i] == s[i];
    }
  }

  lemma HierPrefix(s: string, ch: char)
    requires !HierState(s + [ch]).Dead?
    ensures !HierState(s).Dead?
  {
    hide HostEnd, Authority, HostByte, PathText, PathByte;
    var t, n := s + [ch], HostEnd(s);
    HostEndSnoc(s, ch);
    NothingBehind();
    if n < |s| {
      assert t[..n] == s[..n] && t[n..] == s[n..] + [ch];
      PathPrefix(s[n..], ch);
    } else {
      assert s[..n] == s && s[n..] == "" && t[..|t|] == t && t[..|s|] == s;
      AuthoritySnoc(s, ch);
    }
  }

  lemma SchemePrefix(s: string, ch: char)
    requires s != "" && !SchemeState(s + [ch]).Dead?
    ensures !SchemeState(s).Dead?
  {
    hide HierState, PathState, Letter;
    var t, n := s + [ch], LetterRun(s);
    LetterRunSnoc(s, ch);
    if 0 < n < |s| {
      assert t[n..] == s[n..] + [ch];
      if |s| - n >= 3 {
        assert t[n..n + 3] == s[n..n + 3] && t[n + 3..] == s[n + 3..] + [ch];
        HierPrefix(s[n + 3..], ch);
      } else {
        SeparatorPrefix(s[n..], ch);
        assert n + 3 <= |t| ==> t[n..n + 3] == t[n..];
      }
    }
  }

  lemma SeparatorPrefix(r: string, ch: char)
    requires 1 <= |r| <= 2 && (r + [ch] == ":" || r + [ch] == ":/" || r + [ch] == SEPARATOR)
    ensures r == ":" || r == ":/"
  {
    assert r == (r + [ch])[..|r|];
  }

  /** A text that is refused stays refused. */
  lemma StatePrefix(connect: bool, s: string, ch: char)
    requires !StateOf(connect, s + [ch]).Dead?
    ensures !StateOf(connect, s).Dead?
  {
    hide HierState, SchemeState, PathText;
    if connect {
      HierPrefix(s, ch);
    } else if s != "" {
      assert (s + [ch])[0] == s[0];
      if s[0] == '/' || s[0] == '*' {
        PathPrefix(s, ch);
      } else {
        SchemePrefix(s, ch);
      }
    }
  }

  // ---------------------------------------------------------------- the parser

  predicate NoBlank(s: string) {
    forall i :: 0 <= i < |s| ==> NotBlank(s[i])
  }

  lemma Alive(connect: bool, s: string)
    requires !StateOf(connect, s).Dead?
    ensures s != "" ==> IsUrlState(StateOf(connect, s))
  {
  }

  /** The state in which the parser has read `s` of a target. */
  predicate Reading(c: Control, s: string) {
    !StateOf(c.verb.Connect?, s).Dead?
    && c.state == if s == "" then SpacesBeforeUrl else StateOf(c.verb.Connect?, s)
  }

  lemma TargetStep(c: Control, s: string, ch: char)
    requires Reading(c, s) && NotBlank(ch)
    ensures var st := StateOf(c.verb.Connect?, s + [ch]);
            && (c.state.SpacesBeforeUrl? || IsUrlState(c.state))
            && StepUrl(c, ch) == if st.Dead? then Err(InvalidUrl) else Emit(c, st, UrlData)
  {
    hide StateOf, UrlNext;
    StateNext(c.verb.Connect?, s, ch);
    Alive(c.verb.Connect?, s);
    EmptyTarget(c.verb.Connect?);
  }

  lemma EmptyTarget(connect: bool)
    ensures StateOf(connect, "") == if connect then ServerStart else SpacesBeforeUrl
  {
  }

  lemma TargetFeed(p: Parser, s: string, ch: char)
    requires Reading(p.control, s) && NotBlank(ch) && p.control.nread + 1 <= MAX_HEADER_SIZE
    ensures var st := StateOf(p.control.verb.Connect?, s + [ch]);
            Feed1(p, ch) ==
            if st.Dead? then Failed(InvalidUrl, p.delivered)
            else More(Parser(p.control.(state := st, nread := p.control.nread + 1), OnUrl(p.message, [ch]),
                             p.delivered))
  {
    hide StateOf, StepUrl;
    var c := p.control.(nread := p.control.nread + 1);
    TargetStep(c, s, ch);
    var st := StateOf(c.verb.Connect?, s + [ch]);
    if !st.Dead? {
      DataFeed(p, ch, c.(state := st), UrlData);
    }
  }

  /** The parser after the text `s` of a target. */
  lemma {:induction false} TargetRun(p: Parser, s: string)
    requires p.control.state.SpacesBeforeUrl? && s != "" && NoBlank(s)
    requires p.control.nread + |s| <= MAX_HEADER_SIZE
    ensures var st := StateOf(p.control.verb.Connect?, s);
            Run(p, s) ==
            if st.Dead? then Failed(InvalidUrl, p.delivered)
            else More(Parser(p.control.(state := st, nread := p.control.nread + |s|), OnUrl(p.message, s),
                             p.delivered))
  {
    hide StateOf, Feed1;
    var k := |s| - 1;
    var connect := p.control.verb.Connect?;
    assert s == s[..k] + [s[k]];
    if k == 0 {
      EmptyTarget(connect);
      assert s[..k] == "" && s == [s[k]];
      TargetFeed(p, "", s[0]);
      RunOne(p, s[0]);
    } else {
      TargetRun(p, s[..k]);
      if StateOf(connect, s[..k]).Dead? {
        if !StateOf(connect, s).Dead? {
          StatePrefix(connect, s[..k], s[k]);
          assert false;
        }
      } else {
        TargetFeed(Run(p, s[..k]).parser, s[..k], s[k]);
        OnDataAppend(p.message, UrlData, s[..k], [s[k]]);
      }
    }
  }

  lemma TargetEndFeed(p: Parser)
    requires IsUrlState(p.control.state) && p.control.nread + 1 <= MAX_HEADER_SIZE
    ensures Feed1(p, ' ') ==
            if MayEnd(p.control.state) then
              More(p.(control := p.control.(state := HttpStart, nread := p.control.nread + 1)))
            else Failed(InvalidUrl, p.delivered)
  {
    if MayEnd(p.control.state) {
      QuietFeed(p, ' ', p.control.(state := HttpStart, nread := p.control.nread + 1));
    }
  }

  /** For every text without a space or a line end: it is taken for a target, and kept as it is, if
      and only if it is one; anything else is an invalid URL. */
  lemma TargetExactly(p: Parser, s: string)
    requires p.control.state.SpacesBeforeUrl? && s != "" && NoBlank(s)
    requires p.control.nread + |s| + 1 <= MAX_HEADER_SIZE
    ensures Run(p, s + " ") ==
            if Target(p.control.verb.Connect?, s) then
              More(Parser(p.control.(state := HttpStart, nread := p.control.nread + |s| + 1), OnUrl(p.message, s),
                          p.delivered))
            else Failed(InvalidUrl, p.delivered)
  {
    hide StateOf, Feed1, Run, Target;
    var connect := p.control.verb.Connect?;
    TargetRun(p, s);
    TargetEnds(connect, s);
    if StateOf(connect, s).Dead? {
      RunAppend(p, s, " ");
    } else {
      Alive(connect, s);
      TargetEndFeed(Run(p, s).parser);
      RunPush(p, s, ' ');
      assert s + [' '] == s + " ";
    }
  }

  /** The targets are blank-free texts. */
  lemma TargetNotBlank(connect: bool, s: string)
    requires Target(connect, s)
    ensures s != "" && NoBlank(s)
  {
    if connect {
      HierNotBlank(s);
    } else if !Origin(s) {
      var n := LetterRun(s);
      HierNotBlank(s[n + 3..]);
      forall i | 0 <= i < |s| ensures NotBlank(s[i]) {
        if n <= i < n + 3 {
          assert s[i] == s[n..n + 3][i - n] == SEPARATOR[i - n];
        } else if i >= n + 3 {
          assert s[i] == s[n + 3..][i - n - 3];
        }
      }
    }
  }

  lemma HierNotBlank(s: string)
    requires Hier(s)
    ensures NoBlank(s)
  {
    var n := HostEnd(s);
    forall i | 0 <= i < |s| ensures NotBlank(s[i]) {
      if i < n {
        assert s[..n][i] == s[i];
      } else {
        assert s[n..][i - n] == s[i];
      }
    }
  }
}
