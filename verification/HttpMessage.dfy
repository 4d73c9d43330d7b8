/** The callbacks of `HTTPParser`, which rebuild a request out of pieces, and the
    meaning of a whole byte string: the fold of the per-byte step. */
module HttpMessage {
  import opened Basics
  import opened HttpChars
  import opened HttpMethods
  import opened HttpControl

  /** What the handler is given when a message is complete. */
  datatype Request = Request(
    verb: Method, rawUrl: string, headers: seq<(string, string)>, body: string,
    major: nat, minor: nat, keepAlive: bool, closeConnection: bool, upgrade: bool)

  /** The request under construction.  `inField` is `header_building_state`. */
  datatype Message = Message(
    rawUrl: string, field: string, value: string, headers: seq<(string, string)>, body: string,
    inField: bool, keepAlive: bool, closeConnection: bool)

  const BLANK := Message("", "", "", [], "", false, false, false)

  function OnUrl(m: Message, s: string): Message {
    m.(rawUrl := m.rawUrl + s)
  }

  /** A new name files the previous header, unless its value was empty. */
  function OnField(m: Message, s: string): Message {
    if m.inField then m.(field := m.field + s)
    else if m.value != "" then
      m.(headers := m.headers + [(m.field, m.value)], field := s, value := "", inField := true)
    else m.(field := s, inField := true)
  }

  function OnValue(m: Message, s: string): Message {
    if m.inField then m.(value := s, inField := false) else m.(value := m.value + s)
  }

  function OnBody(m: Message, s: string): Message {
    m.(body := m.body + s)
  }

  function KeepAliveOf(c: Control): bool {
    if c.major == 1 && c.minor == 0 then c.flags.keepAlive else c.major == 1 && c.minor == 1
  }

  function CloseOf(c: Control): bool {
    if c.major == 1 && c.minor == 0 then !c.flags.keepAlive
    else c.major == 1 && c.minor == 1 && c.flags.close
  }

  /** The last header is filed even when its value is empty. */
  function OnHeadersComplete(m: Message, c: Control): Message {
    var m' := if m.field == "" then m
              else m.(headers := m.headers + [(m.field, m.value)], field := "", value := "");
    m'.(keepAlive := KeepAliveOf(c), closeConnection := CloseOf(c))
  }

  function ToRequest(m: Message, c: Control): Request {
    Request(c.verb, m.rawUrl, m.headers, m.body, c.major, c.minor, m.keepAlive, m.closeConnection, c.upgrade)
  }

  function OnData(m: Message, d: Data, s: string): Message {
    match d
    case NoData => m
    case UrlData => OnUrl(m, s)
    case FieldData => OnField(m, s)
    case ValueData => OnValue(m, s)
    case BodyData => OnBody(m, s)
  }

  /** The callbacks of one byte, up to but excluding on_message_complete. */
  function Callbacks(m0: Message, e: Effect, ch: char, c: Control): Message {
    var m1 := if e.begin then BLANK else m0;
    var m2 := if e.emptyValue then OnValue(m1, "") else m1;
    var m3 := OnData(m2, e.data, [ch]);
    if e.headersComplete then OnHeadersComplete(m3, c) else m3
  }

  /** Parser fields, request under construction, and the requests handed over so far. */
  datatype Parser = Parser(control: Control, message: Message, delivered: seq<Request>)

  const START := Parser(INITIAL, BLANK, [])

  datatype Outcome =
    | More(parser: Parser)
    | Failed(errno: Errno, delivered: seq<Request>)
    /** The parser stopped after `used` bytes because the message upgrades the connection. */
    | Upgraded(used: nat, delivered: seq<Request>)

  function Deliver(p: Parser, c: Control, e: Effect, ch: char): Parser {
    var m := Callbacks(p.message, e, ch, c);
    Parser(c, m, if e.complete then p.delivered + [ToRequest(m, c)] else p.delivered)
  }

  function Feed1(p: Parser, ch: char): Outcome {
    match Step(p.control, ch)
    case Next(c, e) => More(Deliver(p, c, e, ch))
    case Halt(c, e) => Upgraded(1, Deliver(p, c, e, ch).delivered)
    case Err(x) => Failed(x, p.delivered)
  }

  /** The meaning of a byte string. */
  function Run(p: Parser, s: string): Outcome
    ensures Run(p, s).Upgraded? ==> Run(p, s).used <= |s|
  {
    if s == "" then More(p)
    else
      var k := |s| - 1;
      var r := Run(p, s[..k]);
      if !r.More? then r
      else
        var o := Feed1(r.parser, s[k]);
        if o.Upgraded? then o.(used := k + 1) else o
  }

  /** Continue an outcome that has consumed `n` bytes with further bytes. */
  function Then(r: Outcome, n: nat, s: string): Outcome {
    if !r.More? then r
    else
      var o := Run(r.parser, s);
      if o.Upgraded? then o.(used := n + o.used) else o
  }

  /** Feeding a concatenation is feeding one part and then the other. */
  lemma {:induction false} RunAppend(p: Parser, s: string, t: string)
    ensures Run(p, s + t) == Then(Run(p, s), |s|, t)
  {
    hide Feed1;
    if t == "" {
      assert s + t == s;
    } else {
      var k := |t| - 1;
      RunAppend(p, s, t[..k]);
      assert (s + t)[..|s + t| - 1] == s + t[..k] && (s + t)[|s + t| - 1] == t[k];
    }
  }

  lemma RunOne(p: Parser, ch: char)
    ensures Run(p, [ch]) == Feed1(p, ch)
  {
    assert [ch][..0] == "";
    assert Run(p, "") == More(p);
  }

  /** A run that has stopped stays as it is, whatever follows. */
  lemma {:induction false} RunStopped(p: Parser, data: string, k: nat)
    requires k <= |data| && !Run(p, data[..k]).More?
    ensures Run(p, data) == Run(p, data[..k])
  {
    RunAppend(p, data[..k], data[k..]);
    assert data[..k] + data[k..] == data;
  }

  /** Data callbacks may be cut anywhere: two pieces do what their concatenation does. */
  lemma OnDataAppend(m: Message, d: Data, s: string, t: string)
    ensures OnData(OnData(m, d, s), d, t) == OnData(m, d, s + t)
  {
    match d {
      case NoData =>
      case UrlData => assert m.rawUrl + s + t == m.rawUrl + (s + t);
      case FieldData => assert m.field + s + t == m.field + (s + t);
      case ValueData => assert m.value + s + t == m.value + (s + t);
      case BodyData => assert m.body + s + t == m.body + (s + t);
    }
  }
}
