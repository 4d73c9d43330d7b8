/** What the holes of a pattern take, and which urls the usual patterns match, without the scanners. */
module RouteHoles {
  import opened Basics
  import opened RoutePatterns

  // ---------------------------------------------------------------- strings

  lemma {:induction false} SegmentEnds(s: string)
    ensures var n := Segment(s);
            && (forall i :: 0 <= i < n ==> s[i] != '/') && (n < |s| ==> s[n] == '/')
  {
    if s != "" && s[0] != '/' {
      SegmentEnds(s[1..]);
      var n := Segment(s[1..]);
      assert forall i :: 1 <= i < n + 1 ==> s[i] == s[1..][i - 1];
    }
  }

  /** A string hole takes the longest text without a slash, and at least one character. */
  lemma StringExactly(strtod: Strtod, s: string, n: nat)
    requires s != ""
    ensures n <= |s| ==>
              (Scan(strtod, StringParam, s) == Some((n, Text(s[..n]))) <==>
               n >= 1 && '/' !in s[..n] && (n == |s| || s[n] == '/'))
    ensures Scan(strtod, StringParam, s).None? <==> s[0] == '/'
    ensures Scan(strtod, StringParam, s).Some? ==> Scan(strtod, StringParam, s).value.1.Text?
  {
    SegmentEnds(s);
    var k := Segment(s);
    assert n <= |s| ==> forall i :: 0 <= i < n ==> s[i] in s[..n];
    assert forall i :: 0 <= i < k ==> s[..k][i] != '/';
  }

  /** A path hole takes everything. */
  lemma PathExactly(strtod: Strtod, s: string)
    requires s != ""
    ensures Scan(strtod, PathParam, s) == Some((|s|, Text(s)))
  {
  }

  // ---------------------------------------------------------------- numbers

  predicate DigitsOnly(s: string) {
    forall i :: 0 <= i < |s| ==> IsNum(s[i])
  }

  lemma {:induction false} DigitRunEnds(s: string)
    ensures DigitsOnly(s[..DigitRun(s)]) && (DigitRun(s) < |s| ==> !IsNum(s[DigitRun(s)]))
  {
    if s != "" && IsNum(s[0]) {
      DigitRunEnds(s[1..]);
      var n := DigitRun(s[1..]);
      assert forall i :: 1 <= i < n + 1 ==> s[i] == s[1..][i - 1] == s[1..][..n][i - 1];
    }
  }

  /** The first `n` characters are digits and the next one, if any, is none. */
  predicate DigitsEnd(s: string, k: nat, n: nat) {
    k < n <= |s| && DigitsOnly(s[k..n]) && (n == |s| || !IsNum(s[n]))
  }

  lemma DigitRunIs(s: string, k: nat, n: nat)
    requires k <= |s|
    ensures DigitsEnd(s, k, n) <==> n > k && n == k + DigitRun(s[k..])
  {
    var d := DigitRun(s[k..]);
    DigitRunEnds(s[k..]);
    assert s[k..][..d] == s[k..k + d];
    assert forall i :: k <= i < k + d ==> IsNum(s[k..k + d][i - k]) && s[i] == s[k..k + d][i - k];
    assert k < n <= |s| ==> forall i :: k <= i < n ==> s[i] == s[k..n][i - k];
  }

  /** A signed hole takes an optional sign and all the digits behind it, if the number has 64 bits. */
  lemma IntExactly(strtod: Strtod, s: string, n: nat, v: int)
    requires s != ""
    ensures Scan(strtod, IntParam, s) == Some((n, IntValue(v))) <==>
            var k := if s[0] == '-' || s[0] == '+' then 1 else 0;
            && DigitsEnd(s, k, n) && v == (if s[0] == '-' then -1 else 1) * DecimalValue(s[k..n])
            && -0x8000_0000_0000_0000 <= v < 0x8000_0000_0000_0000
  {
    var k := if s[0] == '-' || s[0] == '+' then 1 else 0;
    DigitRunIs(s, k, n);
    DigitRunIs(s, k, k + DigitRun(s[k..]));
  }

  lemma UintExactly(strtod: Strtod, s: string, n: nat, v: nat)
    requires s != ""
    ensures Scan(strtod, UintParam, s) == Some((n, UintValue(v))) <==>
            var k := if s[0] == '+' then 1 else 0;
            && DigitsEnd(s, k, n) && v == DecimalValue(s[k..n]) && v < 0x1_0000_0000_0000_0000
  {
    var k := if s[0] == '+' then 1 else 0;
    DigitRunIs(s, k, n);
    assert 0 < n <= |s| ==> s[k..n] == [] || s[k..n][0] == s[k];
  }

  /** Every signed integer of 64 bits is taken as written, up to the first character that is no digit. */
  lemma IntWritten(strtod: Strtod, v: int, rest: string)
    requires -0x8000_0000_0000_0000 <= v < 0x8000_0000_0000_0000 && (rest == "" || !IsNum(rest[0]))
    ensures Scan(strtod, IntParam, IntText(v) + rest) == Some((|IntText(v)|, IntValue(v)))
  {
    var t := IntText(v);
    var s := t + rest;
    var n := if v < 0 then -v else v;
    NatTextBack(n);
    var k := if v < 0 then 1 else 0;
    assert s[k..|t|] == NatText(n);
    IntExactly(strtod, s, |t|, v);
  }

  lemma UintWritten(strtod: Strtod, v: nat, rest: string)
    requires v < 0x1_0000_0000_0000_0000 && (rest == "" || !IsNum(rest[0]))
    ensures Scan(strtod, UintParam, NatText(v) + rest) == Some((|NatText(v)|, UintValue(v)))
  {
    var t := NatText(v);
    NatTextBack(v);
    assert (t + rest)[0..|t|] == t;
    UintExactly(strtod, t + rest, |t|, v);
  }

  /** A floating-point hole is tried only behind a digit, a sign or a point. */
  lemma DoubleExactly(strtod: Strtod, s: string, n: nat, v: real)
    requires s != ""
    ensures Scan(strtod, DoubleParam, s) == Some((n, DoubleValue(v))) <==>
            s[0] in "0123456789+-." && strtod(s) == Some((n, v)) && 1 <= n <= |s|
  {
  }

  // ---------------------------------------------------------------- pattern texts

  /** The ways to write a hole. */
  predicate Names(name: string, p: ParamType) {
    match p
    case IntParam => name == "<int>"
    case UintParam => name == "<uint>"
    case DoubleParam => name == "<float>" || name == "<double>"
    case StringParam => name == "<str>" || name == "<string>"
    case PathParam => name == "<path>"
  }

  /** The text `s` writes the tokens `ts`. */
  ghost predicate Spells(s: string, ts: seq<Token>)
    decreases |ts|
  {
    if ts == [] then s == ""
    else
      match ts[0]
      case Lit(c) => c != '<' && c != NUL && s != "" && s[0] == c && Spells(s[1..], ts[1..])
      case Hole(p) => exists name :: Names(name, p) && StartsWith(s, name) && Spells(s[|name|..], ts[1..])
  }

  lemma Apart(s: string, name: string, other: string, i: nat)
    requires StartsWith(s, name) && i < |name| && i < |other| && name[i] != other[i]
    ensures !StartsWith(s, other)
  {
    assert s[i] == s[..|name|][i];
    assert |other| <= |s| ==> s[i] == s[..|other|][i];
  }

  lemma HoleNamed(s: string, p: ParamType, name: string)
    requires Names(name, p) && StartsWith(s, name)
    ensures s != "" && s[0] == '<' && HoleAt(s) == Some((p, |name|))
  {
    assert s[0] == s[..|name|][0] == name[0];
    if !p.IntParam? {
      Apart(s, name, "<int>", 1);
      if !p.UintParam? {
        Apart(s, name, "<uint>", 1);
        if name != "<float>" {
          Apart(s, name, "<float>", 1);
          if !p.DoubleParam? {
            Apart(s, name, "<double>", 1);
            if name == "<string>" {
              Apart(s, name, "<str>", 4);
            } else if p.PathParam? {
              Apart(s, name, "<str>", 1);
              Apart(s, name, "<string>", 1);
            }
          }
        }
      }
    }
  }

  lemma HoleName(s: string) returns (name: string)
    requires HoleAt(s).Some?
    ensures Names(name, HoleAt(s).value.0) && StartsWith(s, name) && |name| == HoleAt(s).value.1
  {
    name := s[..HoleAt(s).value.1];
  }

  /** For every text and every list of tokens: the text is a pattern with these tokens if and only if it
      writes them. */
  lemma {:induction false} TokensExactly(s: string, ts: seq<Token>)
    ensures WellFormed(s) && Tokens(s) == ts <==> Spells(s, ts)
    decreases |s|
  {
    hide HoleAt, Names;
    if s == "" {
      if ts != [] && ts[0].Hole? && Spells(s, ts) {
        var name :| Names(name, ts[0].param) && StartsWith(s, name) && Spells(s[|name|..], ts[1..]);
        HoleNamed(s, ts[0].param, name);
      }
    } else if s[0] == '<' {
      if WellFormed(s) && Tokens(s) == ts {
        var name := HoleName(s);
        assert ts[1..] == Tokens(s[|name|..]);
        TokensExactly(s[|name|..], ts[1..]);
      }
      if Spells(s, ts) {
        var name :| Names(name, ts[0].param) && StartsWith(s, name) && Spells(s[|name|..], ts[1..]);
        HoleNamed(s, ts[0].param, name);
        TokensExactly(s[|name|..], ts[1..]);
        assert [ts[0]] + ts[1..] == ts;
      }
    } else {
      if ts != [] {
        TokensExactly(s[1..], ts[1..]);
        assert [ts[0]] + ts[1..] == ts;
        if ts[0].Hole? && Spells(s, ts) {
          var name :| Names(name, ts[0].param) && StartsWith(s, name) && Spells(s[|name|..], ts[1..]);
          HoleNamed(s, ts[0].param, name);
        }
      }
    }
  }

  /** Literal text that can stand in a pattern. */
  predicate Literal(s: string) {
    '<' !in s && NUL !in s
  }

  lemma {:induction false} LiteralTokens(prefix: string, rest: string)
    requires Literal(prefix) && WellFormed(rest)
    ensures WellFormed(prefix + rest) && Tokens(prefix + rest) == Lits(prefix) + Tokens(rest)
  {
    hide HoleAt;
    var s := prefix + rest;
    if prefix == "" {
      assert s == rest && Lits(prefix) + Tokens(rest) == Tokens(rest);
    } else {
      LiteralTokens(prefix[1..], rest);
      assert s[1..] == prefix[1..] + rest;
      assert Lits(prefix) == [Lit(prefix[0])] + Lits(prefix[1..]);
    }
  }

  lemma HoleTokens(name: string, p: ParamType)
    requires Names(name, p)
    ensures WellFormed(name) && Tokens(name) == [Hole(p)]
  {
    assert StartsWith(name, name);
    HoleNamed(name, p, name);
    assert name[|name|..] == "";
  }

  // ---------------------------------------------------------------- urls

  /** What follows the literal `prefix` in `url`. */
  predicate Follows(url: string, prefix: string) {
    |prefix| < |url| && url[..|prefix|] == prefix
  }

  /** A literal and one hole match the urls that are the literal and a text which the hole takes as a
      whole. */
  /** What one capture gives the handler. */
  function One(v: Capture): Params {
    match v
    case IntValue(i) => Params([i], [], [], [])
    case UintValue(u) => Params([], [u], [], [])
    case DoubleValue(d) => Params([], [], [d], [])
    case Text(t) => Params([], [], [], [t])
  }

  /** The captures of one part of a url in front of those of the next. */
  function Joined(p: Params, q: Params): Params {
    Params(p.ints + q.ints, p.uints + q.uints, p.doubles + q.doubles, p.strings + q.strings)
  }

  lemma PushIs(p: Params, v: Capture)
    ensures Push(p, v) == Joined(p, One(v)) && Joined(NO_PARAMS, One(v)) == One(v)
  {
  }

  lemma JoinedThree(p: Params, q: Params, r: Params)
    ensures Joined(Joined(p, q), r) == Joined(p, Joined(q, r)) && Joined(p, NO_PARAMS) == p
  {
  }

  function AllJoined(p: Params, o: Option<Params>): Option<Params> {
    match o
    case None => None
    case Some(q) => Some(Joined(p, q))
  }

  /** The captures of a match stand in the order of the holes, each among those of its type, behind the
      ones that were there before. */
  lemma {:induction false} CapturesInOrder(strtod: Strtod, ts: seq<Token>, url: string, pos: nat, params: Params)
    requires pos <= |url|
    ensures Match(strtod, ts, url, pos, params) == AllJoined(params, Match(strtod, ts, url, pos, NO_PARAMS))
    decreases |ts|
  {
    hide Scan, Push, Joined, One;
    JoinedThree(params, params, params);
    if ts != [] && pos < |url| {
      if ts[0].Lit? {
        if url[pos] == ts[0].c {
          CapturesInOrder(strtod, ts[1..], url, pos + 1, params);
        }
      } else {
        match Scan(strtod, ts[0].param, url[pos..]) {
          case None =>
          case Some((n, v)) =>
            CapturesInOrder(strtod, ts[1..], url, pos + n, Push(params, v));
            CapturesInOrder(strtod, ts[1..], url, pos + n, Push(NO_PARAMS, v));
            PushIs(params, v);
            PushIs(NO_PARAMS, v);
            match Match(strtod, ts[1..], url, pos + n, NO_PARAMS) {
              case None =>
              case Some(q) => JoinedThree(params, One(v), q);
            }
        }
      }
    }
  }

  lemma OneHole(strtod: Strtod, prefix: string, name: string, p: ParamType, url: string)
    requires Literal(prefix) && Names(name, p)
    ensures WellFormed(prefix + name)
    ensures Match(strtod, Tokens(prefix + name), url, 0, NO_PARAMS) ==
            if !Follows(url, prefix) then None
            else
              var rest := url[|prefix|..];
              match Scan(strtod, p, rest)
              case None => None
              case Some((n, v)) => if n == |rest| then Some(One(v)) else None
  {
    hide Scan, Names, Push, One;
    if Follows(url, prefix) && Scan(strtod, p, url[|prefix|..]).Some? {
      PushIs(NO_PARAMS, Scan(strtod, p, url[|prefix|..]).value.1);
    }
    HoleTokens(name, p);
    LiteralTokens(prefix, name);
    MatchKey(strtod, prefix, [Hole(p)], url, 0, NO_PARAMS);
    assert |prefix| <= |url| ==> url[0..|prefix|] == url[..|prefix|];
  }

  /** A literal prefix and a string hole match exactly the urls that go on with a non-empty text without
      a slash, which is captured. */
  lemma StringRoute(strtod: Strtod, prefix: string, name: string, url: string)
    requires Literal(prefix) && Names(name, StringParam)
    ensures WellFormed(prefix + name)
    ensures Match(strtod, Tokens(prefix + name), url, 0, NO_PARAMS) ==
            if Follows(url, prefix) && '/' !in url[|prefix|..]
            then Some(Params([], [], [], [url[|prefix|..]])) else None
  {
    hide Match, Tokens, Scan, WellFormed;
    OneHole(strtod, prefix, name, StringParam, url);
    if Follows(url, prefix) {
      var rest := url[|prefix|..];
      StringExactly(strtod, rest, |rest|);
      assert rest[..|rest|] == rest;
      match Scan(strtod, StringParam, rest) {
        case None => assert rest[0] == '/';
        case Some((n, v)) => TextTaken(strtod, rest);
      }
    }
  }

  lemma TextTaken(strtod: Strtod, s: string)
    requires s != "" && Scan(strtod, StringParam, s).Some?
    ensures var (n, v) := Scan(strtod, StringParam, s).value; v == Text(s[..n])
  {
  }

  /** A literal prefix and a path hole match exactly the urls that go on with anything. */
  lemma PathRoute(strtod: Strtod, prefix: string, url: string)
    requires Literal(prefix)
    ensures WellFormed(prefix + "<path>")
    ensures Match(strtod, Tokens(prefix + "<path>"), url, 0, NO_PARAMS) ==
            if Follows(url, prefix) then Some(Params([], [], [], [url[|prefix|..]])) else None
  {
    hide Match, Tokens, WellFormed;
    OneHole(strtod, prefix, "<path>", PathParam, url);
    if Follows(url, prefix) {
      PathExactly(strtod, url[|prefix|..]);
    }
  }

  /** Text behind a literal prefix that is a whole number. */
  predicate WholeInt(s: string) {
    s != "" && var k := if s[0] == '-' || s[0] == '+' then 1 else 0; k < |s| && DigitsOnly(s[k..])
  }

  /** A literal prefix and a signed hole match exactly the urls that go on with an integer of 64 bits. */
  lemma IntRoute(strtod: Strtod, prefix: string, url: string, v: int)
    requires Literal(prefix)
    ensures WellFormed(prefix + "<int>")
    ensures Match(strtod, Tokens(prefix + "<int>"), url, 0, NO_PARAMS) == Some(Params([v], [], [], [])) <==>
            && Follows(url, prefix) && WholeInt(url[|prefix|..])
            && -0x8000_0000_0000_0000 <= v < 0x8000_0000_0000_0000
            && var s := url[|prefix|..];
               v == if s[0] == '-' then -1 * DecimalValue(s[1..])
                    else DecimalValue(if s[0] == '+' then s[1..] else s)
  {
    hide Match, Tokens, WellFormed, Scan;
    OneHole(strtod, prefix, "<int>", IntParam, url);
    if Follows(url, prefix) {
      var s := url[|prefix|..];
      var k := if s[0] == '-' || s[0] == '+' then 1 else 0;
      IntExactly(strtod, s, |s|, v);
      assert s[k..|s|] == s[k..] && s[0..] == s;
      if Scan(strtod, IntParam, s).Some? {
        IntTaken(strtod, s);
        assert [Scan(strtod, IntParam, s).value.1.i][0] == [v][0] <==> Scan(strtod, IntParam, s).value.1.i == v;
      }
    }
  }

  lemma IntTaken(strtod: Strtod, s: string)
    requires s != "" && Scan(strtod, IntParam, s).Some?
    ensures Scan(strtod, IntParam, s).value.1.IntValue?
  {
  }
}
