/** What the JSON reader accepts, as functions on the unchanged text.  A text ends in a NUL byte,
    and no function looks behind it. */
module JsonGrammar {
  import opened Basics
  import opened JsonText

  /** A value that was read: numbers as their text, strings unescaped. */
  datatype Json =
    | JNull | JFalse | JTrue
    | JNumber(text: string)
    | JString(text: string)
    | JList(items: seq<Json>)
    | JObject(members: seq<Member>)

  datatype Member = Member(key: string, value: Json)

  const MAX_DEPTH := 10000

  predicate Terminated(t: string) {
    |t| > 0 && t[|t| - 1] == NUL
  }

  predicate IsSpace(c: char) {
    c == ' ' || c == '\t' || c == '\r' || c == '\n'
  }

  function SkipWs(t: string, pos: nat): (p: nat)
    requires Terminated(t) && pos < |t|
    ensures pos <= p < |t| && !IsSpace(t[p])
    decreases |t| - pos
  {
    if IsSpace(t[pos]) then SkipWs(t, pos + 1) else pos
  }

  // ---------------------------------------------------------------- strings

  lemma UnitStays(t: string, pos: nat)
    requires Terminated(t) && pos < |t| && t[pos] != NUL
    ensures pos + UnitLength(t[pos..]) < |t|
  {
    var raw, n := t[pos..], UnitLength(t[pos..]);
    if n > 1 {
      assert raw[n - 1] == t[pos + n - 1];
    }
  }

  /** Position of the quote that ends the string. */
  function StringEnd(t: string, pos: nat): (r: Option<nat>)
    requires Terminated(t) && pos < |t|
    ensures r.Some? ==> pos <= r.value < |t| - 1 && t[r.value] == '"'
    decreases |t| - pos
  {
    if t[pos] == '"' then Some(pos)
    else if t[pos] == NUL then None
    else
      UnitStays(t, pos);
      var n := UnitLength(t[pos..]);
      if n == 0 then None else StringEnd(t, pos + n)
  }

  lemma UnitPrefix(raw: string, n: nat)
    requires UnitLength(raw) <= n <= |raw| && UnitLength(raw) > 0
    ensures UnitLength(raw[..n]) == UnitLength(raw)
  {
  }

  lemma {:induction false} StringIsEscaped(t: string, pos: nat)
    requires Terminated(t) && pos < |t| && StringEnd(t, pos).Some?
    ensures WellEscaped(t[pos..StringEnd(t, pos).value])
    decreases |t| - pos
  {
    var end := StringEnd(t, pos).value;
    if t[pos] != '"' {
      UnitStays(t, pos);
      var n := UnitLength(t[pos..]);
      StringIsEscaped(t, pos + n);
      UnitPrefix(t[pos..], end - pos);
      assert t[pos..][..end - pos] == t[pos..end];
      assert t[pos..end][n..] == t[pos + n..end];
    }
  }

  /** The unescaped string that starts with the quote at `pos`, and the position behind it. */
  function ParseString(t: string, pos: nat): (r: Option<(string, nat)>)
    requires Terminated(t) && pos < |t|
    ensures r.Some? ==> pos + 1 < r.value.1 < |t|
  {
    if t[pos] != '"' then None
    else
      match StringEnd(t, pos + 1)
      case None => None
      case Some(end) =>
        StringIsEscaped(t, pos + 1);
        Some((Unescape(t[pos + 1..end]), end + 1))
  }

  // ---------------------------------------------------------------- numbers

  datatype NumberState = Minus | AfterMinus | ZeroFirst | Digits | DigitsAfterPoints | E | DigitsAfterE | Invalid

  /** The tables of the number reader; None for a byte that ends the number. */
  function NextNumber(s: NumberState, c: char): Option<NumberState> {
    if c == '0' then
      Some(match s
           case Minus => ZeroFirst case AfterMinus => ZeroFirst case Digits => Digits
           case DigitsAfterPoints => DigitsAfterPoints case E => DigitsAfterE case DigitsAfterE => DigitsAfterE
           case ZeroFirst => Invalid case Invalid => Invalid)
    else if IsNum(c) then
      Some(match s
           case Minus => Digits case AfterMinus => Digits case Digits => Digits
           case DigitsAfterPoints => DigitsAfterPoints case E => DigitsAfterE case DigitsAfterE => DigitsAfterE
           case ZeroFirst => Invalid case Invalid => Invalid)
    else if c == '.' then Some(if s.ZeroFirst? || s.Digits? then DigitsAfterPoints else Invalid)
    else if c == '-' then Some(if s.Minus? then AfterMinus else if s.E? then DigitsAfterE else Invalid)
    else if c == '+' then Some(if s.E? then DigitsAfterE else Invalid)
    else if c == 'e' || c == 'E' then Some(if s.Digits? || s.DigitsAfterPoints? then E else Invalid)
    else None
  }

  predicate Accepts(s: NumberState) {
    s.ZeroFirst? || s.Digits? || s.DigitsAfterPoints? || s.DigitsAfterE?
  }

  function NumberEnd(t: string, pos: nat, s: NumberState): (r: Option<nat>)
    requires Terminated(t) && pos < |t|
    ensures r.Some? ==> pos <= r.value < |t| && (s.Minus? ==> pos < r.value)
    decreases |t| - pos
  {
    if s.Invalid? then None
    else
      match NextNumber(s, t[pos])
      case None => if Accepts(s) then Some(pos) else None
      case Some(s') => NumberEnd(t, pos + 1, s')
  }

  // ---------------------------------------------------------------- values

  predicate LiteralAt(t: string, pos: nat, word: string) {
    pos + |word| <= |t| && t[pos..pos + |word|] == word
  }

  function ParseValue(t: string, pos: nat, depth: nat): (r: Option<(Json, nat)>)
    requires Terminated(t) && pos < |t|
    ensures r.Some? ==> pos < r.value.1 < |t|
    decreases |t| - pos, 1
  {
    if t[pos] == '[' then ParseList(t, pos, depth + 1)
    else if t[pos] == '{' then ParseObject(t, pos, depth + 1)
    else if t[pos] == '"' then
      match ParseString(t, pos) { case None => None case Some((s, p)) => Some((JString(s), p)) }
    else if t[pos] == 't' then if LiteralAt(t, pos, "true") && pos + 4 < |t| then Some((JTrue, pos + 4)) else None
    else if t[pos] == 'f' then if LiteralAt(t, pos, "false") && pos + 5 < |t| then Some((JFalse, pos + 5)) else None
    else if t[pos] == 'n' then if LiteralAt(t, pos, "null") && pos + 4 < |t| then Some((JNull, pos + 4)) else None
    else
      match NumberEnd(t, pos, Minus)
      case None => None
      case Some(p) => Some((JNumber(t[pos..p]), p))
  }

  function ParseList(t: string, pos: nat, depth: nat): (r: Option<(Json, nat)>)
    requires Terminated(t) && pos < |t| && t[pos] == '['
    ensures r.Some? ==> pos < r.value.1 < |t|
    decreases |t| - pos, 0
  {
    if depth > MAX_DEPTH then None
    else
      var p := SkipWs(t, pos + 1);
      if t[p] == ']' then Some((JList([]), p + 1))
      else
        match ParseItems(t, p, depth)
        case None => None
        case Some((items, q)) => Some((JList(items), q))
  }

  /** At least one item, up to the closing bracket. */
  function ParseItems(t: string, pos: nat, depth: nat): (r: Option<(seq<Json>, nat)>)
    requires Terminated(t) && pos < |t|
    ensures r.Some? ==> pos < r.value.1 < |t|
    decreases |t| - pos, 2
  {
    match ParseValue(t, pos, depth + 1)
    case None => None
    case Some((v, p)) =>
      var q := SkipWs(t, p);
      if t[q] == ']' then Some(([v], q + 1))
      else if t[q] != ',' then None
      else
        match ParseItems(t, SkipWs(t, q + 1), depth)
        case None => None
        case Some((rest, e)) => Some(([v] + rest, e))
  }

  function ParseObject(t: string, pos: nat, depth: nat): (r: Option<(Json, nat)>)
    requires Terminated(t) && pos < |t| && t[pos] == '{'
    ensures r.Some? ==> pos < r.value.1 < |t|
    decreases |t| - pos, 0
  {
    if depth > MAX_DEPTH then None
    else
      var p := SkipWs(t, pos + 1);
      if t[p] == '}' then Some((JObject([]), p + 1))
      else
        match ParseMembers(t, p, depth)
        case None => None
        case Some((members, q)) => Some((JObject(members), q))
  }

  /** Key, colon and value of one member. */
  function ParseMember(t: string, pos: nat, depth: nat): (r: Option<(Member, nat)>)
    requires Terminated(t) && pos < |t|
    ensures r.Some? ==> pos < r.value.1 < |t|
    decreases |t| - pos, 2
  {
    match ParseString(t, pos)
    case None => None
    case Some((key, p)) =>
      var q := SkipWs(t, p);
      if t[q] != ':' then None
      else
        match ParseValue(t, SkipWs(t, q + 1), depth + 1)
        case None => None
        case Some((v, e)) => Some((Member(key, v), e))
  }

  function ParseMembers(t: string, pos: nat, depth: nat): (r: Option<(seq<Member>, nat)>)
    requires Terminated(t) && pos < |t|
    ensures r.Some? ==> pos < r.value.1 < |t|
    decreases |t| - pos, 3
  {
    match ParseMember(t, pos, depth)
    case None => None
    case Some((m, p)) =>
      var q := SkipWs(t, p);
      if t[q] == '}' then Some(([m], q + 1))
      else if t[q] != ',' then None
      else
        match ParseMembers(t, SkipWs(t, q + 1), depth)
        case None => None
        case Some((rest, e)) => Some(([m] + rest, e))
  }

  /** A whole text: one value, with nothing but white space around it before the first NUL. */
  function ParseText(s: string): Option<Json> {
    var t := s + [NUL];
    match ParseValue(t, SkipWs(t, 0), 0)
    case None => None
    case Some((j, p)) => if t[SkipWs(t, p)] == NUL then Some(j) else None
  }
}
