/** Character classes used by the HTTP request parser.  A C `char` is a Dafny
    `char`; codes of 128 and above are bytes outside US-ASCII. */
module HttpChars {
  import opened Basics

  const CR: char := '\r'
  const LF: char := '\n'
  const NUL: char := '\0'

  /** Or-ing with 0x20: upper case to lower case, but many other characters move too. */
  function Lower(ch: char): char {
    var n := ch as int;
    if n < 256 && (n / 32) % 2 == 0 then (n + 32) as char else ch
  }

  predicate IsAlpha(ch: char) {
    'a' <= Lower(ch) <= 'z'
  }

  /** The token table: the lower-cased character, or NUL when `ch` is no token character. */
  function Token(ch: char): char {
    if 'A' <= ch <= 'Z' then (ch as int + 32) as char
    else if 'a' <= ch <= 'z' || '0' <= ch <= '9' then ch
    else if ch in "!#$%&'*+-.^_`|~" then ch
    else NUL
  }

  /** The table of ordinary URL characters in strict mode. */
  predicate IsUrlChar(ch: char) {
    '!' <= ch <= '~' && ch != '#' && ch != '?'
  }

  predicate IsUserinfoChar(ch: char) {
    IsAlpha(ch) || IsNum(ch) || ch in "-_.!~*'()" || ch in "%;:&=+$,"
  }

  predicate IsHeaderChar(ch: char) {
    ch == CR || ch == LF || ch == '\t' || (ch as int > 31 && ch as int != 127)
  }

  /** Value of a hexadecimal digit, or -1. */
  function Unhex(ch: char): (v: int)
    ensures -1 <= v < 16
  {
    if '0' <= ch <= '9' then ch as int - '0' as int
    else if 'a' <= ch <= 'f' then ch as int - 'a' as int + 10
    else if 'A' <= ch <= 'F' then ch as int - 'A' as int + 10
    else -1
  }
}
