/** Escaping of strings, and the unescaper that rewrites its buffer while reading it. */
module JsonText {
  const NUL: char := 0 as char

  // ---------------------------------------------------------------- escaping

  function HexDigit(n: nat): (c: char)
    requires n < 16
  {
    if n < 10 then ('0' as int + n) as char else ('a' as int + n - 10) as char
  }

  function EscapeChar(c: char): (r: string)
    ensures r != ""
  {
    if c == '"' then "\\\""
    else if c == '\\' then "\\\\"
    else if c as int == 10 then "\\n"
    else if c as int == 8 then "\\b"
    else if c as int == 12 then "\\f"
    else if c as int == 13 then "\\r"
    else if c as int == 9 then "\\t"
    else if c as int < 32 then "\\u00" + [HexDigit(c as int / 16), HexDigit(c as int % 16)]
    else [c]
  }

  function Escape(s: string): string {
    if s == "" then "" else EscapeChar(s[0]) + Escape(s[1..])
  }

  lemma {:induction false} EscapeAppend(s: string, c: char)
    ensures Escape(s + [c]) == Escape(s) + EscapeChar(c)
    decreases |s|
  {
    hide EscapeChar;
    if s == "" {
      assert Escape((s + [c])[1..]) == "";
      assert EscapeChar(c) + "" == EscapeChar(c);
    } else {
      assert (s + [c])[1..] == s[1..] + [c];
      EscapeAppend(s[1..], c);
    }
  }

  // ---------------------------------------------------------------- unescaping

  predicate IsHex(c: char) {
    '0' <= c <= '9' || 'a' <= c <= 'f' || 'A' <= c <= 'F'
  }

  function FromHex(c: char): (n: nat)
    requires IsHex(c)
    ensures n < 16
  {
    if c >= 'a' then c as int - 'a' as int + 10
    else if c >= 'A' then c as int - 'A' as int + 10
    else c as int - '0' as int
  }

  /** Length of the (possibly escaped) character at the start of `raw`, 0 if it is no character. */
  function UnitLength(raw: string): (n: nat)
    ensures n <= |raw|
  {
    if raw == "" then 0
    else if raw[0] != '\\' then 1
    else if |raw| == 1 then 0
    else if raw[1] == 'u' then
      if |raw| >= 6 && IsHex(raw[2]) && IsHex(raw[3]) && IsHex(raw[4]) && IsHex(raw[5]) then 6 else 0
    else if raw[1] in "\"\\/bfnrt" then 2
    else 0
  }

  /** The byte of a two-character escape. */
  function ShortEscape(c: char): char {
    if c == 'b' then 8 as char
    else if c == 'f' then 12 as char
    else if c == 'n' then 10 as char
    else if c == 'r' then 13 as char
    else if c == 't' then 9 as char
    else c
  }

  function CodePoint(h: string): (n: nat)
    requires |h| == 4 && forall i :: 0 <= i < 4 ==> IsHex(h[i])
    ensures n < 0x1_0000
  {
    FromHex(h[0]) * 4096 + FromHex(h[1]) * 256 + FromHex(h[2]) * 16 + FromHex(h[3])
  }

  /** The bytes of a code point (table 3-6 of the Unicode Standard, up to three bytes). */
  function Utf8(code: nat): (r: string)
    requires code < 0x1_0000
    ensures 1 <= |r| <= 3
  {
    if code >= 0x800 then
      [(0xE0 + code / 4096) as char, (0x80 + code / 64 % 64) as char, (0x80 + code % 64) as char]
    else if code >= 0x80 then [(0xC0 + code / 64) as char, (0x80 + code % 64) as char]
    else [code as char]
  }

  /** What one unit stands for. */
  function UnitText(raw: string): (r: string)
    requires UnitLength(raw) > 0
    ensures 1 <= |r| <= UnitLength(raw)
  {
    if raw[0] != '\\' then [raw[0]]
    else if raw[1] == 'u' then Utf8(CodePoint(raw[2..6]))
    else [ShortEscape(raw[1])]
  }

  /** The texts between quotes that the parser accepts. */
  predicate WellEscaped(raw: string) {
    raw == "" || (UnitLength(raw) > 0 && WellEscaped(raw[UnitLength(raw)..]))
  }

  function Unescape(raw: string): (r: string)
    requires WellEscaped(raw)
    ensures |r| <= |raw|
  {
    if raw == "" then "" else UnitText(raw) + Unescape(raw[UnitLength(raw)..])
  }

  lemma {:induction false} NoEscapes(raw: string)
    requires '\\' !in raw
    ensures WellEscaped(raw) && Unescape(raw) == raw
  {
    if raw != "" {
      NoEscapes(raw[1..]);
    }
  }

  // ---------------------------------------------------------------- in place

  lemma NothingEscaped()
    ensures Escape("") == ""
  {
  }

  /** `out` grows by the escaped text. */
  method AppendEscaped(s: string, out: string) returns (r: string)
    ensures r == out + Escape(s)
  {
    hide EscapeChar;
    r := out;
    NothingEscaped();
    var i := 0;
    while i < |s|
      invariant i <= |s| && r == out + Escape(s[..i])
    {
      r := r + EscapeChar(s[i]);
      EscapeAppend(s[..i], s[i]);
      assert s[..i + 1] == s[..i] + [s[i]];
      assert out + Escape(s[..i]) + EscapeChar(s[i]) == out + (Escape(s[..i]) + EscapeChar(s[i]));
      i := i + 1;
    }
    assert s[..i] == s;
  }

  /** The one to three bytes of a code point. */
  method WriteUtf8(buffer: array<char>, tail: nat, code: nat) returns (tail': nat)
    requires code < 0x1_0000 && tail + 3 <= buffer.Length
    modifies buffer
    ensures tail' == tail + |Utf8(code)| && buffer[tail..tail'] == Utf8(code)
    ensures forall i :: 0 <= i < buffer.Length && !(tail <= i < tail') ==> buffer[i] == old(buffer[i])
  {
    if code >= 0x800 {
      buffer[tail] := (0xE0 + code / 4096) as char;
      buffer[tail + 1] := (0x80 + code / 64 % 64) as char;
      buffer[tail + 2] := (0x80 + code % 64) as char;
      tail' := tail + 3;
    } else if code >= 0x80 {
      buffer[tail] := (0xC0 + code / 64) as char;
      buffer[tail + 1] := (0x80 + code % 64) as char;
      tail' := tail + 2;
    } else {
      buffer[tail] := code as char;
      tail' := tail + 1;
    }
  }

  /** One unit at `head`, written at `tail`. */
  method WriteUnit(buffer: array<char>, head: nat, tail: nat, end: nat) returns (head': nat, tail': nat)
    requires tail <= head < end <= buffer.Length && UnitLength(buffer[head..end]) > 0
    modifies buffer
    ensures head' == head + UnitLength(old(buffer[head..end])) <= end
    ensures tail' == tail + |UnitText(old(buffer[head..end]))| <= head'
    ensures buffer[tail..tail'] == UnitText(old(buffer[head..end]))
    ensures forall i :: 0 <= i < buffer.Length && !(tail <= i < tail') ==> buffer[i] == old(buffer[i])
  {
    hide CodePoint, FromHex, IsHex, Utf8;
    ghost var raw := buffer[head..end];
    assert forall i :: head <= i < end ==> buffer[i] == raw[i - head];
    head', tail' := head, tail;
    if buffer[head'] == '\\' {
      head' := head' + 1;
      if buffer[head'] == 'u' {
        assert buffer[head' + 1..head' + 5] == raw[2..6];
        var code := CodePoint(buffer[head' + 1..head' + 5]);
        tail' := WriteUtf8(buffer, tail', code);
        head' := head' + 4;
      } else {
        buffer[tail'] := ShortEscape(buffer[head']);
        tail' := tail' + 1;
      }
    } else {
      buffer[tail'] := buffer[head'];
      tail' := tail' + 1;
    }
    head' := head' + 1;
  }

  lemma UnescapeUnit(raw: string)
    requires WellEscaped(raw) && raw != ""
    ensures UnitLength(raw) > 0 && WellEscaped(raw[UnitLength(raw)..])
    ensures Unescape(raw) == UnitText(raw) + Unescape(raw[UnitLength(raw)..])
  {
    hide UnitLength, UnitText;
  }

  lemma UnescapeStep(b: seq<char>, b': seq<char>, start: nat, tail: nat, head: nat, tail': nat, head': nat, end: nat)
    requires start <= tail <= head < end <= |b| == |b'| && tail <= tail' <= head' <= end
    requires WellEscaped(b[head..end]) && head' == head + UnitLength(b[head..end])
    requires b'[..tail] == b[..tail] && b'[tail..tail'] == UnitText(b[head..end]) && b'[head'..] == b[head'..]
    ensures WellEscaped(b'[head'..end])
    ensures b'[start..tail'] + Unescape(b'[head'..end]) == b[start..tail] + Unescape(b[head..end])
  {
    hide UnitLength, UnitText, WellEscaped, Unescape;
    var rest := b[head..end];
    UnescapeUnit(rest);
    assert b'[head'..end] == b'[head'..][..end - head'] == b[head'..][..end - head'] == rest[UnitLength(rest)..];
    assert b'[start..tail] == b'[..tail][start..] == b[..tail][start..] == b[start..tail];
    assert b'[start..tail'] == b[start..tail] + UnitText(rest);
  }

  /** The loop of the unescaper.  The write cursor never passes the read cursor, and reading stops
      exactly at the end. */
  method UnescapeText(buffer: array<char>, start: nat, end: nat) returns (tail: nat)
    requires start <= end <= buffer.Length && WellEscaped(buffer[start..end])
    modifies buffer
    ensures start <= tail <= end && buffer[start..tail] == Unescape(old(buffer[start..end]))
    ensures buffer[..start] == old(buffer[..start]) && buffer[end..] == old(buffer[end..])
  {
    hide UnitLength, UnitText, Unescape, WellEscaped;
    ghost var raw := buffer[start..end];
    assert buffer[..][start..end] == raw;
    var head := start;
    tail := start;
    while head != end
      invariant start <= tail <= head <= end
      invariant buffer[..start] == old(buffer[..start]) && buffer[head..] == old(buffer[head..])
      invariant WellEscaped(buffer[..][head..end])
      invariant buffer[..][start..tail] + Unescape(buffer[..][head..end]) == Unescape(raw)
      decreases end - head
    {
      ghost var b := buffer[..];
      assert b[head..end] == buffer[head..end];
      NextUnit(b[head..end]);
      var head', tail' := WriteUnit(buffer, head, tail, end);
      assert buffer[..][..tail] == b[..tail] && buffer[..][head'..] == b[head'..];
      assert buffer[..][tail..tail'] == buffer[tail..tail'];
      UnescapeStep(b, buffer[..], start, tail, head, tail', head', end);
      assert buffer[..start] == b[..tail][..start];
      assert buffer[head'..] == old(buffer[head..])[head' - head..];
      head, tail := head', tail';
    }
    assert buffer[..][end..end] == "";
    NothingLeft();
  }

  lemma NextUnit(raw: string)
    requires WellEscaped(raw) && raw != ""
    ensures UnitLength(raw) > 0
  {
  }

  lemma NothingLeft()
    ensures Unescape("") == ""
  {
  }

  /** What a string view means: the byte before it says whether it still holds escapes. */
  ghost function ViewText(b: seq<char>, start: nat, end: nat): string
    requires 1 <= start <= end <= |b|
  {
    if b[start - 1] != NUL && WellEscaped(b[start..end]) then Unescape(b[start..end]) else b[start..end]
  }

  /** Unescape a string view in place, once; nothing outside the view, the flag before it and the
      byte after it is touched. */
  method UnescapeView(buffer: array<char>, start: nat, end: nat) returns (end': nat)
    requires 1 <= start <= end < buffer.Length && buffer[end] == NUL
    requires buffer[start - 1] != NUL ==> WellEscaped(buffer[start..end])
    modifies buffer
    ensures start <= end' <= end && buffer[start - 1] == NUL && buffer[end'] == NUL
    ensures buffer[start..end'] == old(ViewText(buffer[..], start, end))
    ensures forall i :: 0 <= i < start - 1 || end <= i < buffer.Length ==> buffer[i] == old(buffer[i])
    ensures old(buffer[start - 1]) == NUL ==> end' == end && buffer[..] == old(buffer[..])
  {
    hide Unescape, WellEscaped;
    end' := end;
    assert buffer[..][start..end] == buffer[start..end];
    if buffer[start - 1] != NUL {
      end' := UnescapeText(buffer, start, end);
      forall i | 0 <= i < start - 1 ensures buffer[i] == old(buffer[i]) {
        assert buffer[..start][i] == old(buffer[..start])[i];
      }
      forall i | end <= i < buffer.Length ensures buffer[i] == old(buffer[i]) {
        assert buffer[end..][i - end] == old(buffer[end..])[i - end];
      }
      buffer[end'] := NUL;
      buffer[start - 1] := NUL;
    }
  }
}
