/** Route patterns and what it means for a url to match one: the simple thing that the trie of
    module RouteTrie speeds up. */
module RoutePatterns {
  import opened Basics

  const NUL: char := 0 as char

  datatype ParamType = IntParam | UintParam | DoubleParam | StringParam | PathParam

  datatype Token = Lit(c: char) | Hole(param: ParamType)

  /** The parameters captured along a match, by kind, in the order of their holes. */
  datatype Params = Params(ints: seq<int>, uints: seq<nat>, doubles: seq<real>, strings: seq<string>)

  const NO_PARAMS := Params([], [], [], [])

  datatype Capture = IntValue(i: int) | UintValue(u: nat) | DoubleValue(d: real) | Text(s: string)

  /** `strtod`: how many bytes it reads from the start of a text, and their value; None if it
      reads nothing or reports a range error. */
  type Strtod = string -> Option<(nat, real)>

  function Push(p: Params, c: Capture): Params {
    match c
    case IntValue(i) => p.(ints := p.ints + [i])
    case UintValue(u) => p.(uints := p.uints + [u])
    case DoubleValue(d) => p.(doubles := p.doubles + [d])
    case Text(s) => p.(strings := p.strings + [s])
  }

  // ---------------------------------------------------------------- holes

  /** Length of the longest digit prefix. */
  function DigitRun(s: string): (n: nat)
    ensures n <= |s|
  {
    if s == "" || !IsNum(s[0]) then 0 else 1 + DigitRun(s[1..])
  }

  /** `strtoll` on a text that begins with a digit or a sign. */
  function IntAt(s: string): (r: Option<(nat, Capture)>)
    requires s != ""
    ensures r.Some? ==> 1 <= r.value.0 <= |s|
  {
    var k := if s[0] == '+' || s[0] == '-' then 1 else 0;
    var n := DigitRun(s[k..]);
    var v := (if s[0] == '-' then -1 else 1) * DecimalValue(s[k..k + n]);
    if n == 0 || v < -0x8000_0000_0000_0000 || v > 0x7FFF_FFFF_FFFF_FFFF then None else Some((k + n, IntValue(v)))
  }

  /** `strtoull` on a text that begins with a digit or a plus sign. */
  function UintAt(s: string): (r: Option<(nat, Capture)>)
    requires s != ""
    ensures r.Some? ==> 1 <= r.value.0 <= |s|
  {
    var k := if s[0] == '+' then 1 else 0;
    var n := DigitRun(s[k..]);
    var v := DecimalValue(s[k..k + n]);
    if s[0] == '-' || n == 0 || v > 0xFFFF_FFFF_FFFF_FFFF then None else Some((k + n, UintValue(v)))
  }

  function DoubleAt(strtod: Strtod, s: string): (r: Option<(nat, Capture)>)
    requires s != ""
    ensures r.Some? ==> 1 <= r.value.0 <= |s|
  {
    var starts := IsNum(s[0]) || s[0] == '+' || s[0] == '-' || s[0] == '.';
    match strtod(s)
    case None => None
    case Some((n, v)) => if starts && 1 <= n <= |s| then Some((n, DoubleValue(v))) else None
  }

  /** Length of the longest prefix without a slash. */
  function Segment(s: string): (n: nat)
    ensures n <= |s|
  {
    if s == "" || s[0] == '/' then 0 else 1 + Segment(s[1..])
  }

  /** What a hole takes from the start of the rest of the url: at least one byte, and always the
      same, however the pattern goes on. */
  function Scan(strtod: Strtod, p: ParamType, s: string): (r: Option<(nat, Capture)>)
    requires s != ""
    ensures r.Some? ==> 1 <= r.value.0 <= |s|
  {
    match p
    case IntParam => IntAt(s)
    case UintParam => UintAt(s)
    case DoubleParam => DoubleAt(strtod, s)
    case StringParam => var n := Segment(s); if n == 0 then None else Some((n, Text(s[..n])))
    case PathParam => Some((|s|, Text(s)))
  }

  // ---------------------------------------------------------------- matching

  /** The url from `pos` on against a pattern: the parameters after the match. */
  function Match(strtod: Strtod, ts: seq<Token>, url: string, pos: nat, params: Params): Option<Params>
    requires pos <= |url|
    decreases |ts|
  {
    if ts == [] then
      if pos == |url| then Some(params) else None
    else if pos == |url| then None
    else
      match ts[0]
      case Lit(c) => if url[pos] == c then Match(strtod, ts[1..], url, pos + 1, params) else None
      case Hole(p) =>
        match Scan(strtod, p, url[pos..])
        case None => None
        case Some((n, v)) => Match(strtod, ts[1..], url, pos + n, Push(params, v))
  }

  function Lits(key: string): seq<Token> {
    seq(|key|, i requires 0 <= i < |key| => Lit(key[i]))
  }

  /** A literal key is compared as a whole. */
  lemma {:induction false} MatchKey(strtod: Strtod, key: string, ts: seq<Token>, url: string, pos: nat, params: Params)
    requires pos <= |url|
    ensures Match(strtod, Lits(key) + ts, url, pos, params) ==
            if pos + |key| <= |url| && url[pos..pos + |key|] == key
            then Match(strtod, ts, url, pos + |key|, params) else None
    decreases |key|
  {
    if key == "" {
      assert Lits(key) + ts == ts;
    } else {
      assert (Lits(key) + ts)[1..] == Lits(key[1..]) + ts;
      assert (Lits(key) + ts)[0] == Lit(key[0]);
      if pos < |url| && url[pos] == key[0] {
        MatchKey(strtod, key[1..], ts, url, pos + 1, params);
        if pos + |key| <= |url| {
          assert url[pos..pos + |key|] == [url[pos]] + url[pos + 1..pos + |key|];
          assert key == [key[0]] + key[1..];
        }
      } else if pos + |key| <= |url| {
        assert url[pos..pos + |key|][0] == url[pos];
      }
    }
  }

  // ---------------------------------------------------------------- pattern texts

  predicate StartsWith(s: string, prefix: string) {
    |prefix| <= |s| && s[..|prefix|] == prefix
  }

  /** The hole whose name stands at the start of `s`, with the length of the name. */
  function HoleAt(s: string): (r: Option<(ParamType, nat)>)
    ensures r.Some? ==> 1 < r.value.1 <= |s|
  {
    if StartsWith(s, "<int>") then Some((IntParam, 5))
    else if StartsWith(s, "<uint>") then Some((UintParam, 6))
    else if StartsWith(s, "<float>") then Some((DoubleParam, 7))
    else if StartsWith(s, "<double>") then Some((DoubleParam, 8))
    else if StartsWith(s, "<str>") then Some((StringParam, 5))
    else if StartsWith(s, "<string>") then Some((StringParam, 8))
    else if StartsWith(s, "<path>") then Some((PathParam, 6))
    else None
  }

  /** A pattern text the loop of `add` gets to the end of: every `<` begins the name of a hole.
      (At any other `<` the loop stands still.)  NUL is the key character of a hole. */
  predicate WellFormed(s: string) {
    s == "" ||
    if s[0] == '<' then HoleAt(s).Some? && WellFormed(s[HoleAt(s).value.1..]) else s[0] != NUL && WellFormed(s[1..])
  }

  function Tokens(s: string): seq<Token>
    requires WellFormed(s)
  {
    if s == "" then []
    else if s[0] == '<' then [Hole(HoleAt(s).value.0)] + Tokens(s[HoleAt(s).value.1..])
    else [Lit(s[0])] + Tokens(s[1..])
  }
}
