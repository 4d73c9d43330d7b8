/** Definitions shared by several components. */
module Basics {
  datatype Option<T> = None | Some(value: T)

  type byte = n: nat | n < 256

  predicate IsNum(ch: char) {
    '0' <= ch <= '9'
  }

  /** The number written by the decimal digits of `s`. */
  function DecimalValue(s: string): nat {
    if s == "" then 0
    else
      var k := |s| - 1;
      if IsNum(s[k]) then DecimalValue(s[..k]) * 10 + (s[k] as int - '0' as int) else DecimalValue(s[..k])
  }

  // ---------------------------------------------------------------- integers

  function NatText(n: nat): (s: string)
    ensures s != "" && forall i :: 0 <= i < |s| ==> IsNum(s[i])
  {
    var d := ('0' as int + n % 10) as char;
    if n < 10 then [d] else NatText(n / 10) + [d]
  }

  /** `std::to_string` of an integer. */
  function IntText(n: int): string {
    if n < 0 then "-" + NatText(-n) else NatText(n)
  }

  /** The integer written by a text of digits with an optional minus sign. */
  function IntegerOf(s: string): int {
    if s != "" && s[0] == '-' then -(DecimalValue(s[1..]) as int) else DecimalValue(s)
  }

  lemma {:induction false} NatTextBack(n: nat)
    ensures DecimalValue(NatText(n)) == n && (NatText(n)[0] == '0' <==> n == 0)
  {
    var s := NatText(n);
    if n < 10 {
      assert s[..0] == "";
      assert DecimalValue("") == 0;
    } else {
      NatTextBack(n / 10);
      assert s[..|s| - 1] == NatText(n / 10);
    }
  }

  lemma IntTextBack(n: int)
    ensures IntegerOf(IntText(n)) == n
  {
    if n < 0 {
      NatTextBack(-n);
      assert IntText(n)[1..] == NatText(-n);
    } else {
      NatTextBack(n);
    }
  }
}
