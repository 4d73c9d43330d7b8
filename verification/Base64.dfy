/** Base64 (section 4 of RFC 4648) and its url-safe alphabet (section 5). */
module Base64 {
  import opened Basics

  type sextet = n: nat | n < 64

  /** The alphabets: `urlsafe` ends in `-_` instead of `+/`. */
  function Letter(urlsafe: bool, n: sextet): char {
    if n < 26 then ('A' as int + n) as char
    else if n < 52 then ('a' as int + n - 26) as char
    else if n < 62 then ('0' as int + n - 52) as char
    else if n == 62 then (if urlsafe then '-' else '+')
    else (if urlsafe then '_' else '/')
  }

  /** The value of a letter of either alphabet; 0 for any other character. */
  function Value(c: char): sextet {
    if 'A' <= c <= 'Z' then c as int - 'A' as int
    else if 'a' <= c <= 'z' then c as int - 'a' as int + 26
    else if '0' <= c <= '9' then c as int - '0' as int + 52
    else if c == '+' || c == '-' then 62
    else if c == '/' || c == '_' then 63
    else 0
  }

  const UPPER := "ABCDEFGHIJKLMNOPQRSTUVWXYZ"
  const LOWER := "abcdefghijklmnopqrstuvwxyz"
  const DIGITS := "0123456789"

  lemma UpperIs(n: nat)
    requires n < 26
    ensures |UPPER| == 26 && UPPER[n] as int == 'A' as int + n
  {
  }

  lemma LowerIs(n: nat)
    requires n < 26
    ensures |LOWER| == 26 && LOWER[n] as int == 'a' as int + n
  {
  }

  lemma DigitIs(n: nat)
    requires n < 10
    ensures |DIGITS| == 10 && DIGITS[n] as int == '0' as int + n
  {
  }

  /** Tables 1 and 2 of RFC 4648. */
  lemma LetterIs(urlsafe: bool, n: sextet)
    ensures var table := UPPER + LOWER + DIGITS + if urlsafe then "-_" else "+/";
            |table| == 64 && Letter(urlsafe, n) == table[n]
  {
    if n < 26 {
      UpperIs(n);
    } else if n < 52 {
      LowerIs(n - 26);
    } else if n < 62 {
      DigitIs(n - 52);
    }
  }

  /** The four sextets of a group are its 24 bits, cut into sixes. */
  lemma SextetsAre(a: byte, b: byte, c: byte)
    ensures var s: seq<nat> := Sextets(a, b, c);
            s[0] * 0x4_0000 + s[1] * 0x1000 + s[2] * 0x40 + s[3] == a * 0x1_0000 + b * 0x100 + c
  {
  }

  lemma LetterBack(urlsafe: bool, n: sextet)
    ensures Value(Letter(urlsafe, n)) == n && Letter(urlsafe, n) != '='
  {
  }

  // ---------------------------------------------------------------- encoding

  /** The four sextets of three bytes. */
  function Sextets(a: byte, b: byte, c: byte): (s: seq<sextet>)
    ensures |s| == 4
  {
    [a / 4, a % 4 * 16 + b / 16, b % 16 * 4 + c / 64, c % 64]
  }

  function Letters(urlsafe: bool, s: seq<sextet>): (r: string)
    ensures |r| == |s|
  {
    seq(|s|, i requires 0 <= i < |s| => Letter(urlsafe, s[i]))
  }

  function Encode(urlsafe: bool, data: seq<byte>): string {
    if |data| >= 3 then Letters(urlsafe, Sextets(data[0], data[1], data[2])) + Encode(urlsafe, data[3..])
    else if |data| == 2 then Letters(urlsafe, Sextets(data[0], data[1], 0)[..3]) + "="
    else if |data| == 1 then Letters(urlsafe, Sextets(data[0], 0, 0)[..2]) + "=="
    else ""
  }

  /** The four places of a group, each with the bits of at most two neighbouring bytes. */
  function Place0(a: byte): sextet {
    a / 4
  }

  function Place1(a: byte, b: byte): sextet {
    a % 4 * 16 + b / 16
  }

  function Place2(b: byte, c: byte): sextet {
    b % 16 * 4 + c / 64
  }

  function Place3(c: byte): sextet {
    c % 64
  }

  /** The letters of a group, one by one. */
  lemma GroupLetters(urlsafe: bool, a: byte, b: byte, c: byte)
    ensures Letters(urlsafe, Sextets(a, b, c)) ==
            [Letter(urlsafe, Place0(a)), Letter(urlsafe, Place1(a, b)), Letter(urlsafe, Place2(b, c)),
             Letter(urlsafe, Place3(c))]
    ensures Letters(urlsafe, Sextets(a, b, 0)[..3]) ==
            [Letter(urlsafe, Place0(a)), Letter(urlsafe, Place1(a, b)), Letter(urlsafe, Place2(b, 0))]
    ensures Letters(urlsafe, Sextets(a, 0, 0)[..2]) == [Letter(urlsafe, Place0(a)), Letter(urlsafe, Place1(a, 0))]
  {
    hide Letter;
    assert Sextets(a, b, c) == [Place0(a), Place1(a, b), Place2(b, c), Place3(c)];
  }

  /** A whole group in front of the encoding of the rest. */
  lemma EncodeGroup(urlsafe: bool, data: seq<byte>)
    requires |data| >= 3
    ensures Encode(urlsafe, data) ==
            [Letter(urlsafe, Place0(data[0])), Letter(urlsafe, Place1(data[0], data[1])),
             Letter(urlsafe, Place2(data[1], data[2])), Letter(urlsafe, Place3(data[2]))] + Encode(urlsafe, data[3..])
  {
    hide Letter, Letters, Sextets, Place0, Place1, Place2, Place3;
    GroupLetters(urlsafe, data[0], data[1], data[2]);
  }

  /** What is left behind the whole groups. */
  lemma EncodeRest(urlsafe: bool, data: seq<byte>)
    requires |data| < 3
    ensures Encode(urlsafe, data) ==
            if |data| == 0 then ""
            else if |data| == 1 then [Letter(urlsafe, Place0(data[0])), Letter(urlsafe, Place1(data[0], 0)), '=', '=']
            else [Letter(urlsafe, Place0(data[0])), Letter(urlsafe, Place1(data[0], data[1])),
                  Letter(urlsafe, Place2(data[1], 0)), '=']
  {
    hide Letter, Letters, Sextets, Place0, Place1, Place2, Place3;
    if |data| == 1 {
      GroupLetters(urlsafe, data[0], 0, 0);
    } else if |data| == 2 {
      GroupLetters(urlsafe, data[0], data[1], 0);
    }
  }

  /** `base64encode`. */
  method Base64Encode(input: seq<byte>, urlsafe: bool) returns (ret: string)
    ensures ret == Encode(urlsafe, input)
  {
    hide Letter, Encode, Place0, Place1, Place2, Place3;
    var data := input;
    ret := "";
    while |data| >= 3
      invariant ret + Encode(urlsafe, data) == Encode(urlsafe, input)
      decreases |data|
    {
      var group := [Letter(urlsafe, Place0(data[0])), Letter(urlsafe, Place1(data[0], data[1])),
                    Letter(urlsafe, Place2(data[1], data[2])), Letter(urlsafe, Place3(data[2]))];
      EncodeGroup(urlsafe, data);
      assert ret + (group + Encode(urlsafe, data[3..])) == ret + group + Encode(urlsafe, data[3..]);
      ret := ret + group;
      data := data[3..];
    }
    EncodeRest(urlsafe, data);
    if |data| == 1 {
      ret := ret + [Letter(urlsafe, Place0(data[0])), Letter(urlsafe, Place1(data[0], 0)), '=', '='];
    } else if |data| == 2 {
      ret := ret + [Letter(urlsafe, Place0(data[0])), Letter(urlsafe, Place1(data[0], data[1])),
                    Letter(urlsafe, Place2(data[1], 0)), '='];
    }
  }

  // ---------------------------------------------------------------- decoding

  /** Bytes 1, 2 and 3 of a group. */
  function First(odd: sextet, even: sextet): byte {
    odd * 4 + even / 16
  }

  function Second(even: sextet, odd: sextet): byte {
    even % 16 * 16 + odd / 4
  }

  function Third(odd: sextet, even: sextet): byte {
    odd % 4 * 64 + even
  }

  /** The number of bytes that a text stands for, with or without its padding. */
  function OutputSize(data: string): nat
    requires |data| >= 2
  {
    var n := |data| / 4 * 3;
    if |data| % 4 == 2 then n + 1
    else if |data| % 4 == 3 then n + 2
    else if data[|data| - 2] == '=' then n - 2
    else if data[|data| - 1] == '=' then n - 1
    else n
  }

  /** `size` bytes from the front of a text that is long enough. */
  function Decode(data: string, size: nat): seq<byte>
    requires |data| >= size / 3 * 4 + if size % 3 == 0 then 0 else size % 3 + 1
  {
    if size >= 3 then
      [First(Value(data[0]), Value(data[1])), Second(Value(data[1]), Value(data[2])),
       Third(Value(data[2]), Value(data[3]))]
      + Decode(data[4..], size - 3)
    else if size == 2 then [First(Value(data[0]), Value(data[1])), Second(Value(data[1]), Value(data[2]))]
    else if size == 1 then [First(Value(data[0]), Value(data[1]))]
    else []
  }

  lemma LongEnough(data: string)
    requires |data| >= 2
    ensures var size := OutputSize(data); |data| >= size / 3 * 4 + if size % 3 == 0 then 0 else size % 3 + 1
  {
    var q, r := |data| / 4, |data| % 4;
    assert |data| == 4 * q + r;
  }

  /** `base64decode`. */
  method Base64Decode(text: string) returns (ret: seq<byte>)
    requires |text| >= 2
    ensures OutputSize(text) >= 0
    ensures |text| >= OutputSize(text) / 3 * 4 + (if OutputSize(text) % 3 == 0 then 0 else OutputSize(text) % 3 + 1)
    ensures ret == Decode(text, OutputSize(text))
  {
    hide OutputSize;
    LongEnough(text);
    var size, data := OutputSize(text), text;
    ret := [];
    while size >= 3
      invariant |data| >= size / 3 * 4 + if size % 3 == 0 then 0 else size % 3 + 1
      invariant ret + Decode(data, size) == Decode(text, OutputSize(text))
      decreases size
    {
      var group := [First(Value(data[0]), Value(data[1])), Second(Value(data[1]), Value(data[2])),
                    Third(Value(data[2]), Value(data[3]))];
      assert ret + (group + Decode(data[4..], size - 3)) == ret + group + Decode(data[4..], size - 3);
      ret := ret + group;
      data := data[4..];
      size := size - 3;
    }
    if size == 2 {
      ret := ret + [First(Value(data[0]), Value(data[1])), Second(Value(data[1]), Value(data[2]))];
    } else if size == 1 {
      ret := ret + [First(Value(data[0]), Value(data[1]))];
    }
  }

  // ---------------------------------------------------------------- round trip

  lemma GroupBack(a: byte, b: byte, c: byte)
    ensures var s := Sextets(a, b, c); First(s[0], s[1]) == a && Second(s[1], s[2]) == b && Third(s[2], s[3]) == c
  {
  }

  /** The encoding without its padding. */
  function Stripped(urlsafe: bool, data: seq<byte>): string {
    var e := Encode(urlsafe, data);
    if |data| % 3 == 1 && |e| >= 2 then e[..|e| - 2] else if |data| % 3 == 2 && |e| >= 1 then e[..|e| - 1] else e
  }

  lemma {:induction false} EncodedSize(urlsafe: bool, data: seq<byte>)
    ensures |Encode(urlsafe, data)| == (|data| + 2) / 3 * 4
    decreases |data|
  {
    hide Letters, Sextets;
    if |data| >= 3 {
      EncodedSize(urlsafe, data[3..]);
      assert (|data| + 2) / 3 == (|data| - 3 + 2) / 3 + 1;
    }
  }

  lemma NoMark(urlsafe: bool, s: seq<sextet>)
    ensures forall i :: 0 <= i < |s| ==> Letters(urlsafe, s)[i] != '='
  {
    hide Letter;
    forall i | 0 <= i < |s| ensures Letters(urlsafe, s)[i] != '=' {
      LetterBack(urlsafe, s[i]);
    }
  }

  lemma ThreeFewer(n: nat)
    requires n >= 3
    ensures (n - 3) % 3 == n % 3
  {
  }

  /** Padding marks stand at the end of the encoding and nowhere else. */
  lemma {:induction false} EncodedMarks(urlsafe: bool, data: seq<byte>, i: nat)
    requires i < |Encode(urlsafe, data)|
    ensures Encode(urlsafe, data)[i] == '=' <==>
            (|data| % 3 == 1 && i + 2 >= |Encode(urlsafe, data)|)
                || (|data| % 3 == 2 && i + 1 >= |Encode(urlsafe, data)|)
    decreases |data|
  {
    hide Letters, Sextets;
    if |data| >= 3 {
      EncodedSize(urlsafe, data[3..]);
      ThreeFewer(|data|);
      NoMark(urlsafe, Sextets(data[0], data[1], data[2]));
      if i >= 4 {
        EncodedMarks(urlsafe, data[3..], i - 4);
      }
    } else if |data| == 2 {
      NoMark(urlsafe, Sextets(data[0], data[1], 0)[..3]);
    } else {
      NoMark(urlsafe, Sextets(data[0], 0, 0)[..2]);
    }
  }

  /** Decoding as many bytes as were encoded gives them back; what stands behind does not matter. */
  lemma {:induction false} DecodeEncoded(urlsafe: bool, data: seq<byte>, text: string)
    requires |text| >= |data| / 3 * 4 + if |data| % 3 == 0 then 0 else |data| % 3 + 1
    requires forall i :: 0 <= i < |Encode(urlsafe, data)|
                         && i < |data| / 3 * 4 + (if |data| % 3 == 0 then 0 else |data| % 3 + 1) ==>
               text[i] == Encode(urlsafe, data)[i]
    ensures Decode(text, |data|) == data
    decreases |data|
  {
    hide Letter, Value, First, Second, Third;
    EncodedSize(urlsafe, data);
    if |data| >= 3 {
      GroupRead(urlsafe, data[0], data[1], data[2], text);
      DecodeEncoded(urlsafe, data[3..], text[4..]);
      assert data == data[..3] + data[3..];
    } else if |data| == 2 {
      PairRead(urlsafe, data[0], data[1], text);
    } else if |data| == 1 {
      SingleRead(urlsafe, data[0], text);
    }
  }

  lemma GroupRead(urlsafe: bool, a: byte, b: byte, c: byte, text: string)
    requires |text| >= 4 && forall i :: 0 <= i < 4 ==> text[i] == Letters(urlsafe, Sextets(a, b, c))[i]
    ensures First(Value(text[0]), Value(text[1])) == a && Second(Value(text[1]), Value(text[2])) == b
            && Third(Value(text[2]), Value(text[3])) == c
  {
    hide Letter, Value;
    var s := Sextets(a, b, c);
    LetterBack(urlsafe, s[0]);
    LetterBack(urlsafe, s[1]);
    LetterBack(urlsafe, s[2]);
    LetterBack(urlsafe, s[3]);
    GroupBack(a, b, c);
  }

  lemma PairRead(urlsafe: bool, a: byte, b: byte, text: string)
    requires |text| >= 3 && forall i :: 0 <= i < 3 ==> text[i] == Letters(urlsafe, Sextets(a, b, 0)[..3])[i]
    ensures First(Value(text[0]), Value(text[1])) == a && Second(Value(text[1]), Value(text[2])) == b
  {
    hide Letter, Value;
    var s := Sextets(a, b, 0);
    LetterBack(urlsafe, s[0]);
    LetterBack(urlsafe, s[1]);
    LetterBack(urlsafe, s[2]);
    GroupBack(a, b, 0);
  }

  lemma SingleRead(urlsafe: bool, a: byte, text: string)
    requires |text| >= 2 && forall i :: 0 <= i < 2 ==> text[i] == Letters(urlsafe, Sextets(a, 0, 0)[..2])[i]
    ensures First(Value(text[0]), Value(text[1])) == a
  {
    hide Letter, Value;
    var s := Sextets(a, 0, 0);
    LetterBack(urlsafe, s[0]);
    LetterBack(urlsafe, s[1]);
    GroupBack(a, 0, 0);
  }

  /** The size the decoder computes is the size that was encoded, padded or not. */
  lemma SizeBack(urlsafe: bool, data: seq<byte>)
    requires data != []
    ensures |Encode(urlsafe, data)| >= 2 && OutputSize(Encode(urlsafe, data)) == |data|
    ensures |Stripped(urlsafe, data)| >= 2 && OutputSize(Stripped(urlsafe, data)) == |data|
  {
    EncodedSize(urlsafe, data);
    var e, t := Encode(urlsafe, data), Stripped(urlsafe, data);
    var q, r := |data| / 3, |data| % 3;
    GroupCount(|data|);
    EncodedMarks(urlsafe, data, |e| - 1);
    EncodedMarks(urlsafe, data, |e| - 2);
    OutputAt(e, if r == 0 then q else q + 1, 0);
    OutputAt(t, q, if r == 0 then 0 else r + 1);
    hide Encode, OutputSize;
  }

  lemma OutputAt(t: string, k: nat, m: nat)
    requires 2 <= |t| == 4 * k + m && m < 4
    ensures OutputSize(t) == if m == 2 then 3 * k + 1 else if m == 3 then 3 * k + 2
                             else if t[|t| - 2] == '=' then 3 * k - 2
                             else if t[|t| - 1] == '=' then 3 * k - 1 else 3 * k
  {
    Quotient(k, m);
  }

  lemma GroupCount(n: nat)
    ensures n == n / 3 * 3 + n % 3 && (n + 2) / 3 == if n % 3 == 0 then n / 3 else n / 3 + 1
  {
  }

  lemma Quotient(k: nat, m: nat)
    requires m < 4
    ensures (4 * k + m) / 4 == k && (4 * k + m) % 4 == m
  {
  }

  /** Decoding undoes encoding, in both alphabets, with and without the padding. */
  method RoundTrip(data: seq<byte>, urlsafe: bool) returns (padded: seq<byte>, unpadded: seq<byte>)
    requires data != []
    ensures padded == data && unpadded == data
  {
    hide Encode, Decode, OutputSize;
    var text := Base64Encode(data, urlsafe);
    SizeBack(urlsafe, data);
    EncodedSize(urlsafe, data);
    padded := Base64Decode(text);
    DecodeEncoded(urlsafe, data, text);
    unpadded := Base64Decode(Stripped(urlsafe, data));
    DecodeEncoded(urlsafe, data, Stripped(urlsafe, data));
  }
}
