/** The texts of JSON values in the terms of RFC 8259: what a client may write, with its white space, its
    escapes and its forms of numbers. */
module JsonSyntax {
  import opened Basics
  import opened JsonText
  import opened JsonGrammar

  // ---------------------------------------------------------------- strings

  /** One character of a string as it is written. */
  datatype Unit =
    | Raw(c: char)
    | Short(c: char)
    /** The number `n` in four hexadecimal digits. */
    | Code(n: nat, digits: string)

  predicate HexOf(c: char, d: nat) {
    d < 16 && (c == "0123456789abcdef"[d] || c == "0123456789ABCDEF"[d])
  }

  predicate GoodUnit(u: Unit) {
    match u
    case Raw(c) => c as int != 34 && c as int != 92 && c as int != 0
    case Short(c) => c in "\"\\/bfnrt"
    case Code(n, h) =>
      && n < 0x1_0000 && |h| == 4
      && HexOf(h[0], n / 4096) && HexOf(h[1], n / 256 % 16) && HexOf(h[2], n / 16 % 16) && HexOf(h[3], n % 16)
  }

  function ShowUnit(u: Unit): string {
    match u
    case Raw(c) => [c]
    case Short(c) => "\\" + [c]
    case Code(_, h) => "\\u" + h
  }

  /** The number of a character in UTF-8 (RFC 3629): the shortest form only. */
  function ReadUtf8(b: string): Option<nat> {
    if |b| == 1 && b[0] as int < 0x80 then Some(b[0] as int)
    else if |b| == 2 && 0xC0 <= b[0] as int < 0xE0 && 0x80 <= b[1] as int < 0xC0 then
      var n := (b[0] as int - 0xC0) * 64 + (b[1] as int - 0x80);
      if n < 0x80 then None else Some(n)
    else if |b| == 3 && 0xE0 <= b[0] as int < 0xF0 && 0x80 <= b[1] as int < 0xC0 && 0x80 <= b[2] as int < 0xC0 then
      var n := (b[0] as int - 0xE0) * 4096 + (b[1] as int - 0x80) * 64 + (b[2] as int - 0x80);
      if n < 0x800 then None else Some(n)
    else None
  }

  /** The bytes `b` are what the unit stands for. */
  predicate UnitMeans(u: Unit, b: string) {
    match u
    case Raw(c) => b == [c]
    case Short(c) =>
      |b| == 1 && b[0] as int ==
        if c == 'b' then 8 else if c == 't' then 9 else if c == 'n' then 10 else if c == 'f' then 12
        else if c == 'r' then 13 else if c == '"' then 34 else if c == '/' then 47 else 92
    case Code(n, _) => ReadUtf8(b) == Some(n)
  }

  lemma HexIs(c: char, d: nat)
    requires HexOf(c, d)
    ensures IsHex(c) && FromHex(c) == d
  {
  }

  lemma CodeIs(h: string, n: nat)
    requires GoodUnit(Code(n, h))
    ensures (forall i :: 0 <= i < 4 ==> IsHex(h[i])) && CodePoint(h) == n
  {
    hide HexOf, IsHex, FromHex;
    HexIs(h[0], n / 4096);
    HexIs(h[1], n / 256 % 16);
    HexIs(h[2], n / 16 % 16);
    HexIs(h[3], n % 16);
    Digits16(n);
  }

  lemma Digits16(n: nat)
    requires n < 0x1_0000
    ensures n / 4096 * 4096 + n / 256 % 16 * 256 + n / 16 % 16 * 16 + n % 16 == n
  {
    assert n / 16 / 16 == n / 256 && n / 256 / 16 == n / 4096;
  }

  lemma Utf8Read(n: nat)
    requires n < 0x1_0000
    ensures ReadUtf8(Utf8(n)) == Some(n)
  {
    assert n / 64 / 64 == n / 4096;
  }

  /** A written unit, whatever follows it, is read as one unit that stands for what it means. */
  lemma UnitShown(u: Unit, rest: string)
    requires GoodUnit(u)
    ensures UnitLength(ShowUnit(u) + rest) == |ShowUnit(u)| && UnitMeans(u, UnitText(ShowUnit(u) + rest))
  {
    hide Utf8, ReadUtf8, HexOf, CodePoint, IsHex;
    var s := ShowUnit(u) + rest;
    if u.Code? {
      CodeIs(u.digits, u.n);
      Utf8Read(u.n);
      assert s[2..6] == u.digits && s[2] == u.digits[0] && s[3] == u.digits[1] && s[4] == u.digits[2]
             && s[5] == u.digits[3];
    }
  }

  /** Every code of four hexadecimal digits, in either case, is unescaped to the UTF-8 bytes of that number. */
  lemma CodeExactly(n: nat, h: string)
    requires GoodUnit(Code(n, h))
    ensures WellEscaped("\\u" + h) && ReadUtf8(Unescape("\\u" + h)) == Some(n)
  {
    hide GoodUnit, ReadUtf8, UnitLength, UnitText;
    var u := Code(n, h);
    UnitShown(u, "");
    var s := ShowUnit(u);
    assert s + "" == s && s[|s|..] == "" && Unescape("") == "";
    assert UnitText(s) + "" == UnitText(s);
  }

  /** Whatever is read as one unit is a written unit. */
  lemma UnitFound(raw: string) returns (u: Unit)
    requires UnitLength(raw) > 0 && raw[0] != '"' && raw[0] != NUL
    ensures GoodUnit(u) && ShowUnit(u) == raw[..UnitLength(raw)]
  {
    var n := UnitLength(raw);
    if raw[0] != '\\' {
      u := Raw(raw[0]);
    } else if raw[1] != 'u' {
      u := Short(raw[1]);
    } else {
      var h := raw[2..6];
      u := Code(CodePoint(h), h);
      CodeFound(h);
      assert raw[..6] == raw[..2] + h;
    }
  }

  lemma HexFound(c: char)
    requires IsHex(c)
    ensures HexOf(c, FromHex(c))
  {
  }

  lemma CodeFound(h: string)
    requires |h| == 4 && forall i :: 0 <= i < 4 ==> IsHex(h[i])
    ensures GoodUnit(Code(CodePoint(h), h))
  {
    hide HexOf, IsHex, FromHex;
    HexFound(h[0]);
    HexFound(h[1]);
    HexFound(h[2]);
    HexFound(h[3]);
    Parts16(FromHex(h[0]), FromHex(h[1]), FromHex(h[2]), FromHex(h[3]));
  }

  lemma Parts16(a: nat, b: nat, c: nat, d: nat)
    requires a < 16 && b < 16 && c < 16 && d < 16
    ensures var n := a * 4096 + b * 256 + c * 16 + d;
            n / 4096 == a && n / 256 % 16 == b && n / 16 % 16 == c && n % 16 == d
  {
    var n := a * 4096 + b * 256 + c * 16 + d;
    LastDigit(a * 256 + b * 16 + c, d);
    LastDigit(a * 16 + b, c);
    LastDigit(a, b);
    assert n / 16 / 16 == n / 256 && n / 256 / 16 == n / 4096;
  }

  lemma LastDigit(q: nat, d: nat)
    requires d < 16
    ensures (q * 16 + d) / 16 == q && (q * 16 + d) % 16 == d
  {
  }

  predicate GoodUnits(us: seq<Unit>) {
    forall i :: 0 <= i < |us| ==> GoodUnit(us[i])
  }

  function ShowUnits(us: seq<Unit>): string {
    if us == [] then "" else ShowUnit(us[0]) + ShowUnits(us[1..])
  }

  /** The text `b` is made of the meanings of the units, in order. */
  ghost predicate UnitsMean(us: seq<Unit>, b: string)
    decreases |us|
  {
    if us == [] then b == ""
    else exists k: nat :: k <= |b| && UnitMeans(us[0], b[..k]) && UnitsMean(us[1..], b[k..])
  }

  lemma Utf8Unique(b: string, n: nat)
    requires ReadUtf8(b) == Some(n)
    ensures n < 0x1_0000 && b == Utf8(n)
  {
    if |b| == 2 {
      LastPart(b[0] as int - 0xC0, b[1] as int - 0x80);
    } else if |b| == 3 {
      LastPart((b[0] as int - 0xE0) * 64 + (b[1] as int - 0x80), b[2] as int - 0x80);
      LastPart(b[0] as int - 0xE0, b[1] as int - 0x80);
      assert n / 64 / 64 == n / 4096;
    }
  }

  lemma LastPart(q: nat, d: nat)
    requires d < 64
    ensures (q * 64 + d) / 64 == q && (q * 64 + d) % 64 == d
  {
  }

  /** What a unit stands for is one text. */
  lemma MeaningUnique(u: Unit, a: string, b: string)
    requires UnitMeans(u, a) && UnitMeans(u, b)
    ensures a == b
  {
    hide ReadUtf8, Utf8;
    if u.Code? {
      Utf8Unique(a, u.n);
      Utf8Unique(b, u.n);
    } else if u.Short? {
      assert a[0] == b[0];
    }
  }

  /** For every string as it is written: it is well escaped, and unescaping it yields exactly what its
      units mean. */
  lemma {:induction false} UnitsExactly(us: seq<Unit>, b: string)
    requires GoodUnits(us)
    ensures WellEscaped(ShowUnits(us))
    ensures UnitsMean(us, b) <==> b == Unescape(ShowUnits(us))
    decreases |us|
  {
    hide GoodUnit, ShowUnit, UnitMeans, UnitLength, UnitText;
    if us != [] {
      var u, rest := us[0], ShowUnits(us[1..]);
      var s := ShowUnits(us);
      UnitShown(u, rest);
      assert s[UnitLength(s)..] == rest;
      UnitsExactly(us[1..], "");
      UnitsExactly(us[1..], Unescape(rest));
      var m, whole := UnitText(s), UnitText(s) + Unescape(rest);
      assert whole[..|m|] == m && whole[|m|..] == Unescape(rest);
      if UnitsMean(us, b) {
        var k: nat :| k <= |b| && UnitMeans(u, b[..k]) && UnitsMean(us[1..], b[k..]);
        MeaningUnique(u, b[..k], m);
        UnitsExactly(us[1..], b[k..]);
        assert b == b[..k] + b[k..];
      }
    }
  }

  // ---------------------------------------------------------------- numbers

  predicate NumberByte(c: char) {
    c in "0123456789+-.eE"
  }

  /** Number of digits at the start. */
  function Leading(s: string): (n: nat)
    ensures n <= |s|
  {
    if s != "" && IsNum(s[0]) then 1 + Leading(s[1..]) else 0
  }

  /** Nothing, or an exponent.  The digits behind a sign may be missing. */
  predicate ExponentForm(s: string) {
    s == "" ||
    ((s[0] == 'e' || s[0] == 'E') && |s| > 1 && (IsNum(s[1]) || s[1] == '+' || s[1] == '-')
     && Leading(s[2..]) == |s| - 2)
  }

  /** What may follow the whole part: a point, digits, which may be missing, and an exponent; or, but not
      behind a single zero, an exponent. */
  predicate FractionForm(s: string, zero: bool) {
    s == "" ||
    if s[0] == '.' then ExponentForm(s[1 + Leading(s[1..])..]) else !zero && ExponentForm(s)
  }

  predicate UnsignedForm(s: string) {
    s != "" && IsNum(s[0]) &&
    if s[0] == '0' then FractionForm(s[1..], true) else FractionForm(s[Leading(s)..], false)
  }

  /** The numbers of section 6 of RFC 8259, with digits that may be missing behind the point and behind
      the sign of the exponent, and without an exponent behind a lone zero. */
  predicate NumberForm(s: string) {
    s != "" && if s[0] == '-' then UnsignedForm(s[1..]) else UnsignedForm(s)
  }

  /** What may be read on from a state of the automaton. */
  predicate RestForm(st: NumberState, s: string) {
    match st
    case Minus => NumberForm(s)
    case AfterMinus => UnsignedForm(s)
    case ZeroFirst => FractionForm(s, true)
    case Digits => FractionForm(s[Leading(s)..], false)
    case DigitsAfterPoints => ExponentForm(s[Leading(s)..])
    case E => s != "" && (IsNum(s[0]) || s[0] == '+' || s[0] == '-') && Leading(s[1..]) == |s| - 1
    case DigitsAfterE => Leading(s) == |s|
    case Invalid => false
  }

  lemma RestNext(st: NumberState, s: string)
    requires s != "" && NumberByte(s[0])
    ensures NextNumber(st, s[0]).Some?
    ensures RestForm(st, s) <==> RestForm(NextNumber(st, s[0]).value, s[1..])
  {
    assert s[1..][Leading(s[1..])..] == s[1 + Leading(s[1..])..];
    assert s[0..] == s;
    if IsNum(s[0]) {
      DigitNext(st, s);
    } else {
      assert Leading(s) == 0;
      SignNext(st, s);
    }
  }

  lemma DigitNext(st: NumberState, s: string)
    requires s != "" && IsNum(s[0])
    ensures NextNumber(st, s[0]).Some?
    ensures RestForm(st, s) <==> RestForm(NextNumber(st, s[0]).value, s[1..])
  {
    hide ExponentForm;
    assert s[1..][Leading(s[1..])..] == s[1 + Leading(s[1..])..];
    assert Leading(s) == 1 + Leading(s[1..]);
    DigitExponent(s);
  }

  lemma DigitExponent(s: string)
    requires s != "" && IsNum(s[0])
    ensures !ExponentForm(s)
  {
  }

  lemma SignNext(st: NumberState, s: string)
    requires s != "" && NumberByte(s[0]) && !IsNum(s[0])
    ensures NextNumber(st, s[0]).Some?
    ensures RestForm(st, s) <==> RestForm(NextNumber(st, s[0]).value, s[1..])
  {
    hide RestForm, NextNumber;
    if s[0] == '.' {
      PointNext(st, s);
    } else if s[0] == '-' || s[0] == '+' {
      PlusMinusNext(st, s);
    } else {
      ExponentNext(st, s);
    }
  }

  lemma PointNext(st: NumberState, s: string)
    requires s != "" && s[0] == '.'
    ensures NextNumber(st, s[0]).Some?
    ensures RestForm(st, s) <==> RestForm(NextNumber(st, s[0]).value, s[1..])
  {
    assert Leading(s) == 0 && s[0..] == s;
    assert s[1..][Leading(s[1..])..] == s[1 + Leading(s[1..])..];
    PointExponent(s);
    hide ExponentForm;
  }

  lemma PointExponent(s: string)
    requires s != "" && s[0] != 'e' && s[0] != 'E'
    ensures !ExponentForm(s)
  {
  }

  lemma PlusMinusNext(st: NumberState, s: string)
    requires s != "" && (s[0] == '-' || s[0] == '+')
    ensures NextNumber(st, s[0]).Some?
    ensures RestForm(st, s) <==> RestForm(NextNumber(st, s[0]).value, s[1..])
  {
    assert Leading(s) == 0 && s[0..] == s;
    PointExponent(s);
    hide ExponentForm;
  }

  lemma ExponentNext(st: NumberState, s: string)
    requires s != "" && (s[0] == 'e' || s[0] == 'E')
    ensures NextNumber(st, s[0]).Some?
    ensures RestForm(st, s) <==> RestForm(NextNumber(st, s[0]).value, s[1..])
  {
    assert Leading(s) == 0 && s[0..] == s;
    ExponentParts(s);
    hide ExponentForm;
  }

  lemma ExponentParts(s: string)
    requires s != "" && (s[0] == 'e' || s[0] == 'E')
    ensures ExponentForm(s) <==>
            var r := s[1..]; r != "" && (IsNum(r[0]) || r[0] == '+' || r[0] == '-') && Leading(r[1..]) == |r| - 1
  {
    if |s| > 1 {
      assert s[1..][1..] == s[2..];
    }
  }

  lemma ByteEnds(st: NumberState, c: char)
    ensures NextNumber(st, c).Some? <==> NumberByte(c)
  {
  }

  lemma RestEnds(st: NumberState)
    ensures RestForm(st, "") <==> Accepts(st)
  {
  }

  /** The automaton reads from a state up to `p` if and only if the text in between has the right form and
      no byte of a number follows. */
  lemma {:induction false} RestExactly(t: string, pos: nat, st: NumberState, p: nat)
    requires Terminated(t) && pos < |t|
    ensures NumberEnd(t, pos, st) == Some(p) <==>
            pos <= p < |t| && RestForm(st, t[pos..p]) && (forall i :: pos <= i < p ==> NumberByte(t[i]))
            && !NumberByte(t[p])
    decreases |t| - pos
  {
    hide RestForm, NextNumber, NumberByte, Accepts;
    RestEnds(st);
    InvalidEnds(t[pos..if pos <= p <= |t| then p else pos]);
    ByteEnds(st, t[pos]);
    ByteEnds(st, NUL);
    NulEnds();
    assert t[pos..pos] == "";
    if NumberByte(t[pos]) {
      var next := NextNumber(st, t[pos]).value;
      RestExactly(t, pos + 1, next, p);
      if pos < p <= |t| {
        assert t[pos..p][1..] == t[pos + 1..p];
        RestNext(st, t[pos..p]);
      }
    }
  }

  lemma NulEnds()
    ensures !NumberByte(NUL)
  {
  }

  lemma InvalidEnds(s: string)
    ensures !RestForm(Invalid, s)
  {
  }

  lemma {:induction false} LeadingDigits(s: string)
    ensures forall i :: 0 <= i < Leading(s) ==> NumberByte(s[i])
  {
    if s != "" && IsNum(s[0]) {
      LeadingDigits(s[1..]);
      assert forall i :: 1 <= i < Leading(s) ==> s[i] == s[1..][i - 1];
    }
  }

  lemma ExponentBytes(s: string)
    requires ExponentForm(s)
    ensures forall i :: 0 <= i < |s| ==> NumberByte(s[i])
  {
    if s != "" {
      LeadingDigits(s[2..]);
      assert forall i :: 2 <= i < |s| ==> s[i] == s[2..][i - 2];
    }
  }

  lemma FractionBytes(s: string, zero: bool)
    requires FractionForm(s, zero)
    ensures forall i :: 0 <= i < |s| ==> NumberByte(s[i])
  {
    hide ExponentForm;
    if s != "" && s[0] == '.' {
      var n := 1 + Leading(s[1..]);
      LeadingDigits(s[1..]);
      ExponentBytes(s[n..]);
      assert forall i :: 0 < i < n ==> s[i] == s[1..][i - 1];
      assert forall i :: n <= i < |s| ==> s[i] == s[n..][i - n];
    } else if s != "" {
      ExponentBytes(s);
    }
  }

  lemma UnsignedBytes(s: string)
    requires UnsignedForm(s)
    ensures forall i :: 0 <= i < |s| ==> NumberByte(s[i])
  {
    hide FractionForm;
    var n := if s[0] == '0' then 1 else Leading(s);
    LeadingDigits(s);
    FractionBytes(s[n..], s[0] == '0');
    assert forall i :: n <= i < |s| ==> s[i] == s[n..][i - n];
  }

  lemma NumberBytes(s: string)
    requires NumberForm(s)
    ensures forall i :: 0 <= i < |s| ==> NumberByte(s[i])
  {
    hide UnsignedForm;
    var n := if s[0] == '-' then 1 else 0;
    assert s[0..] == s;
    UnsignedBytes(s[n..]);
    assert forall i :: n <= i < |s| ==> s[i] == s[n..][i - n];
  }

  /** A number is read up to `p` if and only if the text up to there is one and no byte of a number
      follows. */
  lemma NumberExactly(t: string, pos: nat, p: nat)
    requires Terminated(t) && pos < |t|
    ensures NumberEnd(t, pos, Minus) == Some(p) <==>
            pos < p < |t| && NumberForm(t[pos..p]) && !NumberByte(t[p])
  {
    hide NumberForm, NumberByte, NumberEnd;
    RestExactly(t, pos, Minus, p);
    if pos < p < |t| && NumberForm(t[pos..p]) {
      NumberBytes(t[pos..p]);
      assert forall i :: pos <= i < p ==> t[i] == t[pos..p][i - pos];
    }
    if p == pos {
      NoNumber(t[pos..p]);
    }
  }

  lemma NoNumber(s: string)
    requires s == ""
    ensures !NumberForm(s)
  {
  }
}
