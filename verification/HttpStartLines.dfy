/** Request lines: exactly which texts are taken for one, and that every request which is handed over
    began with one that says what the request says. */
module HttpStartLines {
  import opened Basics
  import opened HttpChars
  import opened HttpMethods
  import opened HttpControl
  import opened HttpMessage
  import opened HttpSteps
  import opened HttpSyntax
  import opened HttpTargets
  import opened HttpInvariants

  /** The parts of a request line between and behind the method and the target. */
  datatype Parts = Parts(gap: string, url: string, gap2: string, version: string)

  predicate Spaces(s: string) {
    s != "" && forall i :: 0 <= i < |s| ==> s[i] == ' '
  }

  /** The protocol of a request, ICE only for SOURCE. */
  predicate Protocol(verb: Method, w: string) {
    w == "HTTP" || (verb.Source? && w == "ICE")
  }

  predicate EndsIn(v: string, ch: char) {
    v != "" && v[|v| - 1] == ch
  }

  function Front(v: string): string {
    if v == "" then v else v[..|v| - 1]
  }

  predicate Slashed(verb: Method, v: string) {
    EndsIn(v, '/') && Protocol(verb, Front(v))
  }

  predicate WithMajor(verb: Method, v: string, major: nat) {
    major < 10 && EndsIn(v, (48 + major) as char) && Slashed(verb, Front(v))
  }

  predicate WithDot(verb: Method, v: string, major: nat) {
    EndsIn(v, '.') && WithMajor(verb, Front(v), major)
  }

  predicate WithMinor(verb: Method, v: string, major: nat, minor: nat) {
    minor < 10 && EndsIn(v, (48 + minor) as char) && WithDot(verb, Front(v), major)
  }

  /** The version of a request line, or none at all: then it is a GET of HTTP/0.9. */
  predicate Versioned(verb: Method, gap2: string, v: string, major: nat, minor: nat) {
    if gap2 == "" then v == "" && verb.Get? && major == 0 && minor == 9
    else Spaces(gap2) && WithMinor(verb, v, major, minor)
  }

  function Text(verb: Method, b: Parts): string {
    Name(verb) + b.gap + b.url + b.gap2 + b.version
  }

  /** A whole request line: any number of spaces, and a line feed with or without a CR in front. */
  predicate LineOf(s: string, verb: Method, b: Parts, major: nat, minor: nat) {
    && Spaces(b.gap) && Target(verb.Connect?, b.url) && s == Text(verb, b) && EndsIn(b.version, LF)
    && (Versioned(verb, b.gap2, Front(b.version), major, minor)
        || (EndsIn(Front(b.version), CR) && Versioned(verb, b.gap2, Front(Front(b.version)), major, minor)))
  }

  // ---------------------------------------------------------------- inside a request line

  /** The text `v` of a version that leads to the state. */
  predicate VersionSoFar(c: Control, v: string) {
    match c.state
    case HttpStart => v == ""
    case HttpH => v == "H"
    case HttpHT => v == "HT"
    case HttpHTT => v == "HTT"
    case HttpHTTP => Protocol(c.verb, v)
    case HttpI => c.verb.Source? && v == "I"
    case HttpIC => c.verb.Source? && v == "IC"
    case HttpMajor => Slashed(c.verb, v)
    case HttpDot => WithMajor(c.verb, v, c.major)
    case HttpMinor => WithDot(c.verb, v, c.major)
    case HttpEnd => WithMinor(c.verb, v, c.major, c.minor)
    case _ => false
  }

  /** What has been read of a request line in the states of one. */
  predicate Shape(c: Control, m: Message, s: string, b: Parts) {
    && m.rawUrl == b.url
    && if c.state.ReqMethod? then b.url == "" && Begins(c.verb, s) && |s| == c.index && s != ""
       else
         && Spaces(b.gap) && s == Text(c.verb, b)
         && if c.state.SpacesBeforeUrl? then b.url == b.gap2 == b.version == ""
            else if IsUrlState(c.state) then b.url != "" && b.gap2 == b.version == ""
                 && StateOf(c.verb.Connect?, b.url) == c.state
            else
              && Target(c.verb.Connect?, b.url)
              && if c.state.LineAlmostDone?
                 then EndsIn(b.version, CR) && Versioned(c.verb, b.gap2, Front(b.version), c.major, c.minor)
                 else Spaces(b.gap2) && VersionSoFar(c, b.version)
  }

  predicate InLine(s: State) {
    s.ReqMethod? || s.SpacesBeforeUrl? || IsUrlState(s) || IsVersionState(s)
  }

  lemma BeginShape(c: Control, ch: char)
    requires c.state.StartReq? && StepStart(c, ch).Next?
    ensures var r := StepStart(c, ch);
            if ch == CR || ch == LF then r == Next(c, QUIET)
            else r.effect == QUIET.(begin := true) && r.control.state.ReqMethod?
                 && Shape(r.control, BLANK, [ch], Parts("", "", "", ""))
  {
    hide Name;
    if ch != CR && ch != LF {
      FirstGuessSound(ch);
    }
  }

  /** What a byte of a request line leads to. */
  predicate Led(c: Control, m: Message, s: string, ch: char, r: StepResult, b: Parts) {
    r.Next? && (r.effect == QUIET || r.effect == QUIET.(data := UrlData)) &&
    var m' := if r.effect == QUIET then m else OnUrl(m, [ch]);
    if r.control.state.FieldStart?
    then m' == m && b.url == m.rawUrl && LineOf(s + [ch], r.control.verb, b, r.control.major, r.control.minor)
    else InLine(r.control.state) && Shape(r.control, m', s + [ch], b)
  }

  /** A byte of the method. */
  lemma MethodShape(c: Control, m: Message, s: string, b: Parts, ch: char) returns (b': Parts)
    requires c.state.ReqMethod? && Shape(c, m, s, b) && StepMethod(c, ch).Next?
    ensures Led(c, m, s, ch, StepMethod(c, ch), b')
  {
    hide Name, Refine;
    b' := b;
    if ch == ' ' && c.index == |Name(c.verb)| {
      b' := Parts(" ", "", "", "");
      assert s == Name(c.verb);
      assert s + [ch] == Name(c.verb) + " " + "" + "" + "";
    } else {
      RefineSound(c.verb, s, ch);
    }
  }

  lemma TextUrl(verb: Method, b: Parts, ch: char)
    requires b.gap2 == b.version == ""
    ensures Text(verb, b) + [ch] == Text(verb, b.(url := b.url + [ch]))
    ensures Text(verb, b) + [ch] == Text(verb, b.(gap2 := [ch]))
    ensures Text(verb, b) + [ch] == Text(verb, b.(version := [ch]))
    ensures b.url == "" ==> Text(verb, b) + [ch] == Text(verb, b.(gap := b.gap + [ch]))
  {
    hide Name;
  }

  lemma TextVersion(verb: Method, b: Parts, ch: char)
    ensures Text(verb, b) + [ch] == Text(verb, b.(version := b.version + [ch]))
    ensures b.version == "" ==> Text(verb, b) + [ch] == Text(verb, b.(gap2 := b.gap2 + [ch]))
  {
    hide Name;
  }

  lemma FrontSnoc(v: string, ch: char)
    ensures EndsIn(v + [ch], ch) && Front(v + [ch]) == v
  {
  }

  lemma SpacesSnoc(s: string)
    requires s == "" || Spaces(s)
    ensures Spaces(s + [' '])
  {
  }

  /** White space in front of the target, and the target itself. */
  lemma TargetShape(c: Control, m: Message, s: string, b: Parts, ch: char) returns (b': Parts)
    requires (c.state.SpacesBeforeUrl? || IsUrlState(c.state)) && Shape(c, m, s, b) && StepUrl(c, ch).Next?
    requires NotBlank(ch) || (ch == ' ' && c.state.SpacesBeforeUrl?)
    ensures Led(c, m, s, ch, StepUrl(c, ch), b')
  {
    hide UrlNext, StateOf, Text;
    TextUrl(c.verb, b, ch);
    if ch == ' ' {
      b' := b.(gap := b.gap + [ch]);
      SpacesSnoc(b.gap);
    } else {
      b' := b.(url := b.url + [ch]);
      EmptyTarget(c.verb.Connect?);
      assert Reading(c, b.url) by {
        SpacesAlive(c, b.url);
      }
      TargetStep(c, b.url, ch);
      if !StateOf(c.verb.Connect?, b.url + [ch]).Dead? {
        Alive(c.verb.Connect?, b.url + [ch]);
      }
    }
  }

  lemma SpacesAlive(c: Control, url: string)
    requires if url == "" then c.state.SpacesBeforeUrl?
             else IsUrlState(c.state) && StateOf(c.verb.Connect?, url) == c.state
    ensures Reading(c, url)
  {
    EmptyTarget(c.verb.Connect?);
    hide StateOf;
  }

  /** A space or a line end behind the target. */
  lemma TargetEndShape(c: Control, m: Message, s: string, b: Parts, ch: char) returns (b': Parts)
    requires IsUrlState(c.state) && Shape(c, m, s, b) && StepUrl(c, ch).Next? && !NotBlank(ch)
    ensures Led(c, m, s, ch, StepUrl(c, ch), b')
  {
    hide UrlNext, StateOf, Text, Target;
    TextUrl(c.verb, b, ch);
    TargetEnds(c.verb.Connect?, b.url);
    assert MayEnd(c.state);
    if ch == ' ' {
      b' := b.(gap2 := [ch]);
    } else {
      b' := b.(version := [ch]);
      assert Front([ch]) == "";
    }
  }

  lemma UrlShape(c: Control, m: Message, s: string, b: Parts, ch: char) returns (b': Parts)
    requires (c.state.SpacesBeforeUrl? || IsUrlState(c.state)) && Shape(c, m, s, b) && StepUrl(c, ch).Next?
    ensures Led(c, m, s, ch, StepUrl(c, ch), b')
  {
    hide Shape, Led;
    if NotBlank(ch) || (ch == ' ' && c.state.SpacesBeforeUrl?) {
      b' := TargetShape(c, m, s, b, ch);
    } else {
      NotBeforeUrl(c, ch);
      b' := TargetEndShape(c, m, s, b, ch);
    }
  }

  lemma NotBeforeUrl(c: Control, ch: char)
    requires (c.state.SpacesBeforeUrl? || IsUrlState(c.state)) && StepUrl(c, ch).Next?
    requires !NotBlank(ch) && !(ch == ' ' && c.state.SpacesBeforeUrl?)
    ensures IsUrlState(c.state)
  {
  }

  // ---------------------------------------------------------------- the version

  /** The control fields after a byte of the version, but for the last line feed. */
  lemma VersionByte(c: Control, v: string, ch: char)
    requires IsVersionState(c.state) && !c.state.LineAlmostDone? && VersionSoFar(c, v) && StepVersion(c, ch).Next?
    ensures var r := StepVersion(c, ch);
            && r.effect == QUIET && r.control.verb == c.verb
            && if c.state.HttpStart? && ch == ' ' then r.control == c
               else if c.state.HttpEnd? then
                 && (r.control.major, r.control.minor) == (c.major, c.minor) && WithMinor(c.verb, v, c.major, c.minor)
                 && if ch == CR then r.control.state.LineAlmostDone? else ch == LF && r.control.state.FieldStart?
               else IsVersionState(r.control.state) && !r.control.state.LineAlmostDone?
                    && VersionSoFar(r.control, v + [ch])
  {
    FrontSnoc(v, ch);
    if (c.state.HttpStart? && ch != ' ') || c.state.HttpH? || c.state.HttpHT? || c.state.HttpHTT? || c.state.HttpI?
       || c.state.HttpIC? {
      LetterByte(c, v, ch);
    }
  }

  lemma LetterByte(c: Control, v: string, ch: char)
    requires (c.state.HttpStart? && ch != ' ') || c.state.HttpH? || c.state.HttpHT? || c.state.HttpHTT?
             || c.state.HttpI?
             || c.state.HttpIC?
    requires VersionSoFar(c, v) && StepVersion(c, ch).Next?
    ensures var r := StepVersion(c, ch);
            r.effect == QUIET && r.control.verb == c.verb && IsVersionState(r.control.state)
            && !r.control.state.LineAlmostDone? && VersionSoFar(r.control, v + [ch])
  {
    assert "" + [ch] == [ch];
    assert "H" + ['T'] == "HT" && "HT" + ['T'] == "HTT" && "HTT" + ['P'] == "HTTP";
    assert "I" + ['C'] == "IC" && "IC" + ['E'] == "ICE";
  }

  lemma VersionShape(c: Control, m: Message, s: string, b: Parts, ch: char) returns (b': Parts)
    requires IsVersionState(c.state) && Shape(c, m, s, b) && StepVersion(c, ch).Next?
    ensures Led(c, m, s, ch, StepVersion(c, ch), b')
  {
    hide Text, Target, VersionSoFar, WithMinor;
    TextVersion(c.verb, b, ch);
    FrontSnoc(b.version, ch);
    b' := b.(version := b.version + [ch]);
    if c.state.LineAlmostDone? {
    } else {
      VersionByte(c, b.version, ch);
      hide StepVersion;
      if c.state.HttpStart? && ch == ' ' {
        b' := b.(gap2 := b.gap2 + [ch]);
        assert b.version == "" by {
          NoVersionYet(c, b.version);
        }
        SpacesSnoc(b.gap2);
      }
    }
  }

  lemma NoVersionYet(c: Control, v: string)
    requires c.state.HttpStart? && VersionSoFar(c, v)
    ensures v == ""
  {
  }

  // ---------------------------------------------------------------- whole runs

  /** A request line with these fields stands in the text. */
  ghost predicate Stands(s: string, verb: Method, url: string, major: nat, minor: nat) {
    exists i: nat, j: nat, b :: i <= j <= |s| && LineOf(s[i..j], verb, b, major, minor) && b.url == url
  }

  lemma StandsOn(s: string, ch: char, verb: Method, url: string, major: nat, minor: nat)
    requires Stands(s, verb, url, major, minor)
    ensures Stands(s + [ch], verb, url, major, minor)
  {
    hide LineOf;
    var i: nat, j: nat, b :| i <= j <= |s| && LineOf(s[i..j], verb, b, major, minor) && b.url == url;
    assert (s + [ch])[i..j] == s[i..j];
  }

  /** The end of the text is the beginning of a request line. */
  ghost predicate Begun(s: string, c: Control, m: Message) {
    exists i: nat, b :: i <= |s| && Shape(c, m, s[i..], b)
  }

  predicate PastLine(s: State) {
    IsHeaderState(s) || IsBodyState(s)
  }

  /** What the text says about the request line of the request under construction. */
  ghost predicate Said(s: string, c: Control, m: Message) {
    && (InLine(c.state) ==> Begun(s, c, m))
    && (PastLine(c.state) ==> Stands(s, c.verb, m.rawUrl, c.major, c.minor))
  }

  ghost predicate AllSaid(s: string, rs: seq<Request>) {
    forall r :: r in rs ==> Stands(s, r.verb, r.rawUrl, r.major, r.minor)
  }

  /** What a step must keep. */
  ghost predicate StepSaid(s: string, m: Message, ch: char, r: StepResult) {
    match r
    case Next(c, e) =>
      var m' := Callbacks(m, e, ch, c);
      Said(s + [ch], c, m') && (e.complete ==> Stands(s + [ch], c.verb, m'.rawUrl, c.major, c.minor))
    case Halt(c, e) => Stands(s + [ch], c.verb, Callbacks(m, e, ch, c).rawUrl, c.major, c.minor)
    case Err(_) => true
  }

  lemma UrlKept(m: Message, e: Effect, ch: char, c: Control)
    requires !e.begin && !e.data.UrlData?
    ensures Callbacks(m, e, ch, c).rawUrl == m.rawUrl
  {
  }

  lemma StartSaid(s: string, c: Control, m: Message, ch: char)
    requires c.state.StartReq?
    ensures StepSaid(s, m, ch, StepStart(c, ch))
  {
    hide Stands, LineOf;
    var r := StepStart(c, ch);
    if r.Next? {
      BeginShape(c, ch);
      hide StepStart, Shape;
      if ch != CR && ch != LF {
        assert (s + [ch])[|s|..] == [ch];
        assert Shape(r.control, BLANK, (s + [ch])[|s|..], Parts("", "", "", ""));
      }
    }
  }

  /** A byte inside a request line. */
  lemma LedSaid(s: string, c: Control, m: Message, i: nat, ch: char, r: StepResult, b: Parts)
    requires i <= |s| && Led(c, m, s[i..], ch, r, b)
    ensures StepSaid(s, m, ch, r)
  {
    hide Shape, LineOf;
    var t := s + [ch];
    assert t[i..] == s[i..] + [ch] && t[i..|t|] == t[i..];
    assert r.effect.data.UrlData? ==> OnData(m, UrlData, [ch]) == OnUrl(m, [ch]);
    if r.control.state.FieldStart? {
      assert LineOf(t[i..|t|], r.control.verb, b, r.control.major, r.control.minor) && b.url == m.rawUrl;
    } else {
      assert !PastLine(r.control.state);
    }
  }

  lemma LineSaid(s: string, c: Control, m: Message, ch: char)
    requires InLine(c.state) && Begun(s, c, m)
    ensures StepSaid(s, m, ch, StepState(c, ch))
  {
    hide Shape, Led, StepSaid, StepMethod, StepUrl, StepVersion, StepHeader, StepBody, StepStart;
    var i: nat, b :| i <= |s| && Shape(c, m, s[i..], b);
    var r := StepState(c, ch);
    if r.Next? {
      var b' := b;
      if c.state.ReqMethod? {
        b' := MethodShape(c, m, s[i..], b, ch);
      } else if c.state.SpacesBeforeUrl? || IsUrlState(c.state) {
        b' := UrlShape(c, m, s[i..], b, ch);
      } else {
        b' := VersionShape(c, m, s[i..], b, ch);
      }
      LedSaid(s, c, m, i, ch, r, b');
    } else {
      LineGoesOn(c, ch);
      assert StepSaid(s, m, ch, r) by {
        ErrorSaid(s, m, ch, r);
      }
    }
  }

  lemma ErrorSaid(s: string, m: Message, ch: char, r: StepResult)
    requires r.Err?
    ensures StepSaid(s, m, ch, r)
  {
  }

  lemma LineGoesOn(c: Control, ch: char)
    requires InLine(c.state)
    ensures !StepState(c, ch).Halt?
  {
    assert !IsHeaderState(c.state);
    hide StepMethod, StepUrl, StepVersion, StepHeader, StepBody, StepStart;
  }

  // ---------------------------------------------------------------- behind the request line

  /** A step keeps the fields of the request line and does not touch the target. */
  predicate KeepsLine(c: Control, r: StepResult) {
    r.Err? ||
    (&& (r.control.verb, r.control.major, r.control.minor) == (c.verb, c.major, c.minor)
     && !r.effect.begin && !r.effect.data.UrlData?
     && (PastLine(r.control.state) || r.control.state.StartReq?))
  }

  lemma EndKeeps(c: Control, ch: char)
    requires IsHeaderState(c.state)
    ensures KeepsLine(c, EndOfHeaders(c, ch))
  {
  }

  lemma FieldStartKeeps(c: Control, ch: char)
    requires IsHeaderState(c.state)
    ensures KeepsLine(c, StepFieldStart(c, ch)) && KeepsLine(c, StepFieldStart(FinishHeader(c), ch))
  {
    hide EndOfHeaders, Token, NameStart;
    EndKeeps(c, ch);
    EndKeeps(FinishHeader(c), ch);
  }

  lemma ValueStartKeeps(c: Control, ch: char)
    requires IsHeaderState(c.state)
    ensures KeepsLine(c, StepValueStart(c, ch))
  {
    hide Lower;
  }

  lemma HeaderKeeps(c: Control, ch: char)
    requires IsHeaderState(c.state)
    ensures KeepsLine(c, StepHeader(c, ch))
  {
    hide EndOfHeaders, StepFieldStart, StepValueStart, FieldToken, Token, ValueByte, FinishHeader;
    EndKeeps(c, ch);
    FieldStartKeeps(c, ch);
    ValueStartKeeps(c, ch);
    ValueStartKeeps(c.(headerState := ContentLengthWs), ch);
  }

  lemma BodyKeeps(c: Control, ch: char)
    requires IsBodyState(c.state)
    ensures KeepsLine(c, StepBody(c, ch))
  {
    hide Unhex;
  }

  lemma PastKeeps(c: Control, ch: char)
    requires PastLine(c.state)
    ensures KeepsLine(c, StepState(c, ch))
  {
    hide KeepsLine, StepHeader, StepBody;
    OneKind(c.state);
    if IsHeaderState(c.state) {
      HeaderKeeps(c, ch);
    } else {
      BodyKeeps(c, ch);
    }
  }

  lemma PastSaid(s: string, c: Control, m: Message, ch: char)
    requires PastLine(c.state) && Stands(s, c.verb, m.rawUrl, c.major, c.minor)
    ensures StepSaid(s, m, ch, StepState(c, ch))
  {
    hide Stands, StepState, Callbacks;
    var r := StepState(c, ch);
    PastKeeps(c, ch);
    StandsOn(s, ch, c.verb, m.rawUrl, c.major, c.minor);
    if !r.Err? {
      UrlKept(m, r.effect, ch, r.control);
      OneKind(r.control.state);
    }
  }

  lemma OneKind(s: State)
    ensures PastLine(s) || s.StartReq? ==> !InLine(s)
    ensures s.Dead? || s.StartReq? || InLine(s) || PastLine(s)
    ensures IsHeaderState(s) ==> !IsBodyState(s)
  {
  }

  lemma StateSaid(s: string, c: Control, m: Message, ch: char)
    requires !c.state.Dead? && Said(s, c, m)
    ensures StepSaid(s, m, ch, StepState(c, ch))
  {
    hide Stands, Begun, StepSaid, StepStart, StepMethod, StepUrl, StepVersion, StepHeader, StepBody;
    OneKind(c.state);
    if c.state.StartReq? {
      StartSaid(s, c, m, ch);
    } else if InLine(c.state) {
      LineSaid(s, c, m, ch);
    } else {
      PastSaid(s, c, m, ch);
    }
  }

  // ---------------------------------------------------------------- whole runs

  lemma CountSaid(s: string, c: Control, m: Message, n: nat)
    requires Said(s, c, m)
    ensures Said(s, c.(nread := n), m)
  {
    hide Stands, Text, Target, StateOf, WithMinor;
    if InLine(c.state) {
      var i: nat, b :| i <= |s| && Shape(c, m, s[i..], b);
      assert Shape(c.(nread := n), m, s[i..], b);
    }
  }

  ghost predicate OutcomeSaid(s: string, o: Outcome) {
    match o
    case More(p) => Said(s, p.control, p.message) && AllSaid(s, p.delivered)
    case Failed(_, d) => AllSaid(s, d)
    case Upgraded(_, d) => AllSaid(s, d)
  }

  lemma AllStand(s: string, ch: char, rs: seq<Request>)
    requires AllSaid(s, rs)
    ensures AllSaid(s + [ch], rs)
  {
    hide Stands;
    forall r | r in rs ensures Stands(s + [ch], r.verb, r.rawUrl, r.major, r.minor) {
      StandsOn(s, ch, r.verb, r.rawUrl, r.major, r.minor);
    }
  }

  lemma FeedSaid(s: string, p: Parser, ch: char)
    requires Inv(p.control) && Said(s, p.control, p.message) && AllSaid(s, p.delivered)
    ensures OutcomeSaid(s + [ch], Feed1(p, ch))
  {
    hide Said, Stands, Holds, StepState, Callbacks;
    var c := p.control;
    AllStand(s, ch, p.delivered);
    assert !c.state.Dead? by {
      NotDead(c);
    }
    if ParsingHeader(c.state) {
      CountSaid(s, c, p.message, c.nread + 1);
      if c.nread + 1 <= MAX_HEADER_SIZE {
        StateSaid(s, c.(nread := c.nread + 1), p.message, ch);
      }
    } else {
      StateSaid(s, c, p.message, ch);
    }
  }

  lemma NotDead(c: Control)
    requires Inv(c)
    ensures !c.state.Dead?
  {
  }

  /** For every input: each request that is handed over goes back to a request line in the input, of
      exactly the form `LineOf`, that says its method, target and version; and so does the request under
      construction. */
  lemma {:induction false} RunSaid(s: string)
    ensures OutcomeSaid(s, Run(START, s))
  {
    hide Said, AllSaid, Feed1, Inv;
    if s == "" {
      StartIsSaid();
    } else {
      var k := |s| - 1;
      RunSaid(s[..k]);
      AssertsExactly(s[..k]);
      assert s == s[..k] + [s[k]];
      if Run(START, s[..k]).More? {
        FeedSaid(s[..k], Run(START, s[..k]).parser, s[k]);
      } else {
        StoppedSaid(s[..k], s[k], Run(START, s[..k]));
      }
    }
  }

  lemma StartIsSaid()
    ensures Said("", INITIAL, BLANK) && AllSaid("", [])
  {
  }

  lemma StoppedSaid(s: string, ch: char, o: Outcome)
    requires !o.More? && OutcomeSaid(s, o)
    ensures OutcomeSaid(s + [ch], o)
  {
    hide AllSaid;
    AllStand(s, ch, o.delivered);
  }

  // ---------------------------------------------------------------- every such line is taken

  lemma {:induction false} SpacesRun(p: Parser, gap: string)
    requires (p.control.state.SpacesBeforeUrl? || p.control.state.HttpStart?)
             && p.control.nread + |gap| <= MAX_HEADER_SIZE
    requires gap == "" || Spaces(gap)
    ensures Run(p, gap) == More(p.(control := p.control.(nread := p.control.nread + |gap|)))
  {
    hide Feed1;
    if gap != "" {
      var k := |gap| - 1;
      SpacesRun(p, gap[..k]);
      var q := Run(p, gap[..k]).parser;
      SpaceStep(q.control.(nread := q.control.nread + 1));
      QuietFeed(q, ' ', q.control.(nread := q.control.nread + 1));
    }
  }

  lemma SpaceStep(c: Control)
    requires c.state.SpacesBeforeUrl? || c.state.HttpStart?
    ensures StepState(c, ' ') == Next(c, QUIET)
  {
  }

  /** The control fields in state `st` of the version, behind `n` bytes. */
  function VersionAt(c: Control, st: State, major: nat, minor: nat, n: nat): Control {
    c.(state := st, nread := c.nread + n,
       major := if st.HttpDot? || st.HttpMinor? || st.HttpEnd? then major else c.major,
       minor := if st.HttpEnd? then minor else c.minor)
  }

  /** The state before the last byte of a version. */
  function Before(st: State, v: string): State {
    match st
    case HttpH => HttpStart
    case HttpHT => HttpH
    case HttpHTT => HttpHT
    case HttpHTTP => if v == "HTTP" then HttpHTT else HttpIC
    case HttpI => HttpStart
    case HttpIC => HttpI
    case HttpMajor => HttpHTTP
    case HttpDot => HttpMajor
    case HttpMinor => HttpDot
    case _ => HttpMinor
  }

  lemma LetterBefore(c: Control, v: string)
    requires c.state.HttpH? || c.state.HttpHT? || c.state.HttpHTT? || c.state.HttpHTTP? || c.state.HttpI?
             || c.state.HttpIC?
    requires VersionSoFar(c, v)
    ensures v != "" && VersionSoFar(c.(state := Before(c.state, v)), Front(v))
    ensures StepVersion(c.(state := Before(c.state, v)), v[|v| - 1]) == Next(c, QUIET)
  {
    assert Front("HTTP") == "HTT" && Front("HTT") == "HT" && Front("HT") == "H" && Front("H") == "";
    assert Front("ICE") == "IC" && Front("IC") == "I" && Front("I") == "";
  }

  lemma VersionBefore(c: Control, st: State, major: nat, minor: nat, v: string)
    requires IsVersionState(st) && !st.HttpStart? && VersionSoFar(VersionAt(c, st, major, minor, 0), v)
    ensures v != "" && VersionSoFar(VersionAt(c, Before(st, v), major, minor, 0), Front(v))
    ensures StepVersion(VersionAt(c, Before(st, v), major, minor, 0), v[|v| - 1]) ==
            Next(VersionAt(c, st, major, minor, 0), QUIET)
    ensures IsVersionState(Before(st, v))
  {
    var d := VersionAt(c, st, major, minor, 0);
    if st.HttpH? || st.HttpHT? || st.HttpHTT? || st.HttpHTTP? || st.HttpI? || st.HttpIC? {
      LetterBefore(d, v);
    }
  }

  lemma {:induction false} VersionRead(p: Parser, st: State, major: nat, minor: nat, v: string)
    requires p.control.state.HttpStart? && p.control.nread + |v| <= MAX_HEADER_SIZE
    requires IsVersionState(st) && VersionSoFar(VersionAt(p.control, st, major, minor, 0), v)
    ensures Run(p, v) == More(p.(control := VersionAt(p.control, st, major, minor, |v|)))
    decreases |v|
  {
    hide Feed1, StepVersion, VersionSoFar, Before;
    var c := p.control;
    if st.HttpStart? {
      NoVersionYet(VersionAt(c, st, major, minor, 0), v);
    } else {
      VersionBefore(c, st, major, minor, v);
      var k := |v| - 1;
      var st' := Before(st, v);
      VersionRead(p, st', major, minor, Front(v));
      var q := Run(p, v[..k]).parser;
      var d := q.control.(nread := q.control.nread + 1);
      VersionAnyCount(VersionAt(c, st', major, minor, 0), VersionAt(c, st, major, minor, 0), v[k], d.nread);
      VersionFeed(q, v[k]);
    }
  }

  lemma VersionAnyCount(c: Control, d: Control, ch: char, n: nat)
    requires IsVersionState(c.state) && StepVersion(c, ch) == Next(d, QUIET)
    ensures StepVersion(c.(nread := n), ch) == Next(d.(nread := n), QUIET)
  {
  }

  predicate AtLineEnd(c: Control) {
    c.state.HttpEnd? || (MayEnd(c.state) && c.verb.Get?)
  }

  function Ended(c: Control): Control {
    if c.state.HttpEnd? then c else c.(major := 0, minor := 9)
  }

  /** The line end of a request line. */
  lemma LineEndRun(p: Parser, end: string)
    requires end == "\n" || end == "\r\n"
    requires AtLineEnd(p.control) && p.control.nread + |end| <= MAX_HEADER_SIZE
    ensures Run(p, end) == More(p.(control := Ended(p.control).(state := FieldStart, nread := p.control.nread + |end|)))
  {
    hide Feed1, AtLineEnd, Ended, Run;
    RunEmpty(p, "");
    if end == "\n" {
      EndFeed(p, LF);
      RunPush(p, "", LF);
      assert "" + [LF] == end;
    } else {
      EndFeed(p, CR);
      RunPush(p, "", CR);
      var s := "" + [CR];
      AlmostFeed(Run(p, s).parser);
      RunPush(p, s, LF);
      assert s + [LF] == end;
    }
  }

  lemma EndFeed(p: Parser, ch: char)
    requires AtLineEnd(p.control) && p.control.nread + 1 <= MAX_HEADER_SIZE && (ch == CR || ch == LF)
    ensures Feed1(p, ch) ==
            More(p.(control := Ended(p.control).(state := if ch == CR then LineAlmostDone else FieldStart,
                                                 nread := p.control.nread + 1)))
  {
    hide StepState, Feed1;
    var c := p.control.(nread := p.control.nread + 1);
    EndStep(c, ch);
    QuietFeed(p, ch, Ended(c).(state := if ch == CR then LineAlmostDone else FieldStart));
  }

  lemma AlmostFeed(p: Parser)
    requires p.control.state.LineAlmostDone? && p.control.nread + 1 <= MAX_HEADER_SIZE
    ensures Feed1(p, LF) == More(p.(control := p.control.(state := FieldStart, nread := p.control.nread + 1)))
  {
    hide Feed1;
    VersionFeed(p, LF);
  }

  lemma EndStep(c: Control, ch: char)
    requires AtLineEnd(c) && (ch == CR || ch == LF)
    ensures StepState(c, ch) == Next(Ended(c).(state := if ch == CR then LineAlmostDone else FieldStart), QUIET)
  {
  }

  /** The method and the spaces behind it. */
  lemma MethodTaken(p: Parser, verb: Method, gap: string)
    requires p.control.state.StartReq? && Spaces(gap) && p.control.nread + |Name(verb)| + |gap| <= MAX_HEADER_SIZE
    ensures Run(p, Name(verb) + gap) ==
            More(Parser(InMethod(p.control, verb, |Name(verb)|).(state := SpacesBeforeUrl, index := |Name(verb)| + 1,
                                                                nread := p.control.nread + |Name(verb)| + |gap|),
                        BLANK, p.delivered))
  {
    hide Run, Feed1, Name, Recognise;
    var s, more := Name(verb), gap[1..];
    RecogniseComplete(verb);
    FirstGuessRight(verb);
    MethodRun(p, s);
    MethodEndFeed(Run(p, s).parser);
    RunPush(p, s, ' ');
    SpacesRun(Run(p, s + [' ']).parser, more);
    RunJoin(p, s + [' '], more);
    assert s + [' '] + more == s + gap;
  }

  /** The method, the target and the spaces around them. */
  lemma TargetTaken(p: Parser, verb: Method, gap: string, url: string)
    requires p.control.state.StartReq? && Spaces(gap) && Target(verb.Connect?, url)
    requires p.control.nread + |Name(verb)| + |gap| + |url| <= MAX_HEADER_SIZE
    ensures var st := StateOf(verb.Connect?, url);
            MayEnd(st) &&
            Run(p, Name(verb) + gap + url) ==
            More(Parser(InMethod(p.control, verb, |Name(verb)|).(state := st, index := |Name(verb)| + 1,
                                                                nread := p.control.nread + |Name(verb)| + |gap|
                                                                    + |url|),
                        BLANK.(rawUrl := url), p.delivered))
  {
    hide Run, Name, Target, StateOf;
    MethodTaken(p, verb, gap);
    TargetNotBlank(verb.Connect?, url);
    TargetEnds(verb.Connect?, url);
    TargetRun(Run(p, Name(verb) + gap).parser, url);
    RunJoin(p, Name(verb) + gap, url);
    assert "" + url == url;
  }

  /** The spaces behind a target and the version. */
  lemma VersionTaken(p: Parser, gap2: string, v: string, major: nat, minor: nat)
    requires MayEnd(p.control.state) && p.control.nread + |gap2| + |v| <= MAX_HEADER_SIZE
    requires Versioned(p.control.verb, gap2, v, major, minor)
    ensures var r := Run(p, gap2 + v);
            && r.More? && AtLineEnd(r.parser.control)
            && r.parser == p.(control := r.parser.control)
            && Ended(r.parser.control) ==
               p.control.(state := r.parser.control.state, major := major, minor := minor,
                          nread := p.control.nread + |gap2| + |v|)
            && r.parser.control.nread == p.control.nread + |gap2| + |v|
  {
    hide Run, Feed1, WithMinor;
    if gap2 == "" {
      RunEmpty(p, gap2 + v);
    } else {
      var more := gap2[1..];
      TargetEndFeed(p);
      RunOne(p, ' ');
      SpacesRun(Run(p, [' ']).parser, more);
      RunJoin(p, [' '], more);
      assert [' '] + more == gap2;
      VersionRead(Run(p, gap2).parser, HttpEnd, major, minor, v);
      RunJoin(p, gap2, v);
    }
  }

  /** Everything behind a target. */
  lemma RestTaken(p: Parser, gap2: string, v: string, end: string, major: nat, minor: nat)
    requires MayEnd(p.control.state) && p.control.nread + |gap2| + |v| + |end| <= MAX_HEADER_SIZE
    requires Versioned(p.control.verb, gap2, v, major, minor) && (end == "\n" || end == "\r\n")
    ensures Run(p, gap2 + v + end) ==
            More(p.(control := p.control.(state := FieldStart, major := major, minor := minor,
                                          nread := p.control.nread + |gap2| + |v| + |end|)))
  {
    hide Run, Versioned, AtLineEnd, Ended, MayEnd;
    VersionTaken(p, gap2, v, major, minor);
    LineEndRun(Run(p, gap2 + v).parser, end);
    RunJoin(p, gap2 + v, end);
  }

  lemma CutLine(s: string, verb: Method, b: Parts, major: nat, minor: nat) returns (v: string, end: string)
    requires LineOf(s, verb, b, major, minor)
    ensures Spaces(b.gap) && Target(verb.Connect?, b.url) && Versioned(verb, b.gap2, v, major, minor)
    ensures (end == "\n" || end == "\r\n") && s == Name(verb) + b.gap + b.url + (b.gap2 + v + end)
  {
    hide Name, Versioned, Target, Spaces;
    if Versioned(verb, b.gap2, Front(b.version), major, minor) {
      v, end := Front(b.version), "\n";
    } else {
      v, end := Front(Front(b.version)), "\r\n";
    }
    assert b.version == v + end;
  }

  /** Every request line of the form `LineOf` is taken: the parser is at the first header line of a new
      message, with the method, target and version of the line. */
  lemma LineTaken(p: Parser, s: string, verb: Method, b: Parts, major: nat, minor: nat)
    requires p.control.state.StartReq? && LineOf(s, verb, b, major, minor)
    requires p.control.nread + |s| <= MAX_HEADER_SIZE
    ensures Run(p, s) ==
            More(Parser(InMethod(p.control, verb, |Name(verb)|).(state := FieldStart, index := |Name(verb)| + 1,
                                                                major := major, minor := minor,
                                                                nread := p.control.nread + |s|),
                        BLANK.(rawUrl := b.url), p.delivered))
  {
    hide Run, Name, Target, StateOf, Spaces, Versioned, MayEnd, LineOf;
    var v, end := CutLine(s, verb, b, major, minor);
    var t, rest := Name(verb) + b.gap + b.url, b.gap2 + v + end;
    TargetTaken(p, verb, b.gap, b.url);
    RestTaken(Run(p, t).parser, b.gap2, v, end, major, minor);
    RunJoin(p, t, rest);
  }
}
