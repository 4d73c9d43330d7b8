/** Bytes as numbers and as vectors of eight bits. */
module Vectors {
  import opened Basics

  /** A byte as eight bits, and back. */
  function Bits(a: byte): bv8 {
    a as bv8
  }

  function Number(x: bv8): byte {
    x as byte
  }

  lemma BitsBack(x: bv8)
    ensures Bits(Number(x)) == x
  {
  }

  lemma Shifted(x: bv8, d: bv8)
    requires x < 128 && d < 2
    ensures Number((x << 1) | d) == 2 * Number(x) + Number(d)
  {
  }

  lemma SmallVector(x: bv8)
    requires Number(x) < 128
    ensures x < 128
  {
  }

  /** Every byte is the number of some eight bits. */
  lemma {:induction false} SomeBits(a: byte) returns (x: bv8)
    ensures Number(x) == a
  {
    if a == 0 {
      x := 0;
    } else {
      var y := SomeBits(a / 2);
      SmallVector(y);
      var d: bv8 := if a % 2 == 0 then 0 else 1;
      Shifted(y, d);
      x := (y << 1) | d;
    }
  }

  lemma NumberBack(a: byte)
    ensures Number(Bits(a)) == a
  {
    hide Bits, Number;
    var x := SomeBits(a);
    BitsBack(x);
  }

  lemma SameBits(a: byte, b: byte)
    requires Bits(a) == Bits(b)
    ensures a == b
  {
    hide Bits, Number;
    NumberBack(a);
    NumberBack(b);
  }
}
