/** The bytes of a request in the terms of its standards, by their codes: what the parser's tables must
    agree with. */
module HttpSyntax {

  predicate Letter(ch: char) {
    65 <= ch as int <= 90 || 97 <= ch as int <= 122
  }

  predicate Digit10(ch: char) {
    48 <= ch as int <= 57
  }

  /** Section 3.2.6 of RFC 7230: visible US-ASCII without the delimiters. */
  predicate TokenByte(ch: char) {
    33 <= ch as int <= 126 && ch !in "()<>@,;:\\\"/[]?={}"
  }

  /** Section 3.2 of RFC 7230: visible bytes, obs-text, spaces and tabs. */
  predicate FieldByte(ch: char) {
    ch as int == 9 || 32 <= ch as int <= 126 || 128 <= ch as int
  }

  /** ASCII letters in lower case. */
  function LowerCase(ch: char): char {
    if 65 <= ch as int <= 90 then (ch as int + 32) as char else ch
  }

  function Lowered(s: string): string {
    seq(|s|, i requires 0 <= i < |s| => LowerCase(s[i]))
  }

  /** Hexadecimal digits and their values. */
  predicate HexByte(ch: char) {
    ch in "0123456789abcdefABCDEF"
  }

  predicate HexOf(ch: char, d: nat) {
    d < 16 && (ch == "0123456789abcdef"[d] || ch == "0123456789ABCDEF"[d])
  }

  // ---------------------------------------------------------------- request targets

  /** Bytes of a path or a query: the visible ones of US-ASCII without the number sign. */
  predicate PathByte(ch: char) {
    33 <= ch as int <= 126 && ch as int != 35
  }

  /** Bytes of an authority: unreserved, pct-encoded, sub-delims, the colon and the brackets
      (sections 2 and 3.2 of RFC 3986). */
  predicate HostByte(ch: char) {
    Letter(ch) || Digit10(ch) || ch in "-._~%!$&'()*+,;=:[]"
  }

  predicate PathText(s: string) {
    forall i :: 0 <= i < |s| ==> PathByte(s[i])
  }

  /** Origin form, and the asterisk form, which may go on like a path. */
  predicate Origin(s: string) {
    s != "" && (s[0] == '/' || s[0] == '*') && PathText(s)
  }

  predicate Authority(s: string) {
    && (forall i :: 0 <= i < |s| ==> HostByte(s[i]) || s[i] == '@')
    && forall i :: 0 < i < |s| ==> !(s[i - 1] == '@' && s[i] == '@')
  }

  /** Where the authority ends. */
  function HostEnd(s: string): (n: nat)
    ensures n <= |s| && (n < |s| ==> s[n] == '/' || s[n] == '?')
    ensures forall i :: 0 <= i < n ==> s[i] != '/' && s[i] != '?'
  {
    if s == "" || s[0] == '/' || s[0] == '?' then 0 else 1 + HostEnd(s[1..])
  }

  /** An authority, a path and a query. */
  predicate Hier(s: string) {
    Authority(s[..HostEnd(s)]) && PathText(s[HostEnd(s)..])
  }

  function LetterRun(s: string): (n: nat)
    ensures n <= |s| && (n < |s| ==> !Letter(s[n])) && forall i :: 0 <= i < n ==> Letter(s[i])
  {
    if s == "" || !Letter(s[0]) then 0 else 1 + LetterRun(s[1..])
  }

  /** Absolute form: a scheme of letters, the separator, and something behind it. */
  predicate Absolute(s: string) {
    var n := LetterRun(s);
    n > 0 && n + 3 < |s| && s[n..n + 3] == "://" && Hier(s[n + 3..])
  }

  /** The target of a CONNECT request is an authority, of any other one a path or a whole URL. */
  predicate Target(connect: bool, s: string) {
    if connect then s != "" && Hier(s) else Origin(s) || Absolute(s)
  }
}
