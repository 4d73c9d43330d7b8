/** SHA-1 as FIPS 180-4 defines it, and the byte-at-a-time implementation of the handshake. */
module Sha1 {
  import opened Vectors

  datatype Digest = Digest(a: bv32, b: bv32, c: bv32, d: bv32, e: bv32)

  const INITIAL := Digest(0x67452301, 0xEFCDAB89, 0x98BADCFE, 0x10325476, 0xC3D2E1F0)

  // ---------------------------------------------------------------- the standard

  /** Section 2.2.2 of FIPS 180-4. */
  function Rotl(x: bv32, n: nat): bv32
    requires 0 < n < 32
  {
    (x << n) | (x >> (32 - n))
  }

  /** Section 4.1.1. */
  function Function(t: nat, x: bv32, y: bv32, z: bv32): bv32 {
    if t < 20 then (x & y) ^ (!x & z)
    else if t < 40 then x ^ y ^ z
    else if t < 60 then (x & y) ^ (x & z) ^ (y & z)
    else x ^ y ^ z
  }

  /** Section 4.2.1. */
  function Constant(t: nat): bv32 {
    if t < 20 then 0x5A827999 else if t < 40 then 0x6ED9EBA1 else if t < 60 then 0x8F1BBCDC else 0xCA62C1D6
  }

  /** A block as 16 big-endian words (section 3.1). */
  function Word(block: seq<bv8>, i: nat): bv32
    requires 4 * i + 4 <= |block|
  {
    ((block[4 * i] as bv32) << 24) | ((block[4 * i + 1] as bv32) << 16) | ((block[4 * i + 2] as bv32) << 8)
        | (block[4 * i + 3] as bv32)
  }

  function Mix(x: bv32, y: bv32, z: bv32, u: bv32): bv32 {
    x ^ y ^ z ^ u
  }

  /** Addition modulo 2^32. */
  function Sum(x: bv32, y: bv32, z: bv32, u: bv32, v: bv32): bv32 {
    x + y + z + u + v
  }

  function Add(x: bv32, y: bv32): bv32 {
    x + y
  }

  function Plus(h: Digest, v: Digest): Digest {
    Digest(Add(h.a, v.a), Add(h.b, v.b), Add(h.c, v.c), Add(h.d, v.d), Add(h.e, v.e))
  }

  /** The message schedule (section 6.1.2, step 1). */
  function Schedule(block: seq<bv8>, t: nat): bv32
    requires |block| == 64
  {
    if t < 16 then Word(block, t)
    else Rotl(Mix(Schedule(block, t - 3), Schedule(block, t - 8), Schedule(block, t - 14), Schedule(block, t - 16)), 1)
  }

  /** The working variables after `t` rounds (steps 2 and 3). */
  function Rounds(block: seq<bv8>, h: Digest, t: nat): Digest
    requires |block| == 64
  {
    if t == 0 then h
    else
      var v := Rounds(block, h, t - 1);
      Digest(Sum(Rotl(v.a, 5), Function(t - 1, v.b, v.c, v.d), v.e, Constant(t - 1), Schedule(block, t - 1)),
             v.a, Rotl(v.b, 30), v.c, v.d)
  }

  /** Step 4. */
  function Compress(block: seq<bv8>, h: Digest): Digest
    requires |block| == 64
  {
    Plus(h, Rounds(block, h, 80))
  }

  /** The hash value of whole blocks. */
  function Hash(m: seq<bv8>): Digest
    requires |m| % 64 == 0
  {
    if m == [] then INITIAL else Compress(m[|m| - 64..], Hash(m[..|m| - 64]))
  }

  function Zeros(n: nat): (z: seq<bv8>)
    ensures |z| == n
  {
    seq(n, _ => 0)
  }

  /** Number of zero bytes of the padding: up to 8 bytes before the end of a block. */
  function ZeroCount(n: nat): (z: nat)
    ensures z < 64
  {
    if n % 64 <= 55 then 55 - n % 64 else 119 - n % 64
  }

  lemma PaddedSize(n: nat)
    ensures (n + 1 + ZeroCount(n) + 8) % 64 == 0 && (n + 1 + ZeroCount(n)) % 64 == 56
  {
    var q, r := n / 64, n % 64;
    assert n == 64 * q + r;
    if r <= 55 {
      Multiple(q, 56);
      Multiple(q + 1, 0);
    } else {
      Multiple(q + 1, 56);
      Multiple(q + 2, 0);
    }
  }

  lemma Multiple(q: nat, r: nat)
    requires r < 64
    ensures (64 * q + r) % 64 == r
  {
  }

  function LengthByte(bits: nat, shift: nat): bv8
    requires shift > 0
  {
    (bits / shift % 0x100) as bv8
  }

  /** The last four bytes of the length. */
  function LowLength(bits: nat): (b: seq<bv8>)
    ensures |b| == 4
  {
    [LengthByte(bits, 0x100_0000), LengthByte(bits, 0x1_0000), LengthByte(bits, 0x100), LengthByte(bits, 1)]
  }

  /** Section 5.1.1: a one bit, zeros, and the length in bits as 64 bits. */
  function Padded(m: seq<bv8>): (p: seq<bv8>)
    ensures |p| % 64 == 0
  {
    PaddedSize(|m|);
    m + [0x80] + Zeros(ZeroCount(|m|)) + LowLength(|m| * 8 / 0x1_0000_0000) + LowLength(|m| * 8)
  }

  /** The padding that the implementation writes: only 32 bits of the length. */
  function ShortPadded(m: seq<bv8>): (p: seq<bv8>)
    ensures |p| % 64 == 0
  {
    PaddedSize(|m|);
    m + [0x80] + Zeros(ZeroCount(|m|)) + Zeros(4) + LowLength(|m| * 8)
  }

  // ---------------------------------------------------------------- the implementation

  /** `LeftRotate`. */
  function LeftRotate(x: bv32, n: nat): bv32
    requires 0 < n < 32
  {
    (x << n) ^ (x >> (32 - n))
  }

  lemma RotateAgrees(x: bv32)
    ensures LeftRotate(x, 1) == Rotl(x, 1) && LeftRotate(x, 5) == Rotl(x, 5) && LeftRotate(x, 30) == Rotl(x, 30)
  {
    assert (x << 1) ^ (x >> 31) == (x << 1) | (x >> 31);
    assert (x << 5) ^ (x >> 27) == (x << 5) | (x >> 27);
    assert (x << 30) ^ (x >> 2) == (x << 30) | (x >> 2);
  }

  /** The implementation's round function. */
  function RoundFunction(i: nat, b: bv32, c: bv32, d: bv32): bv32 {
    if i < 20 then (b & c) | (!b & d)
    else if i < 40 then b ^ c ^ d
    else if i < 60 then (b & c) | (b & d) | (c & d)
    else b ^ c ^ d
  }

  lemma FunctionAgrees(i: nat, b: bv32, c: bv32, d: bv32)
    ensures RoundFunction(i, b, c, d) == Function(i, b, c, d)
  {
    assert (b & c) | (!b & d) == (b & c) ^ (!b & d);
    assert (b & c) | (b & d) | (c & d) == (b & c) ^ (b & d) ^ (c & d);
  }

  /** The implementation's constants and its arithmetic on words. */
  function RoundConstant(i: nat): bv32 {
    if i < 20 then 0x5A827999 else if i < 40 then 0x6ED9EBA1 else if i < 60 then 0x8F1BBCDC else 0xCA62C1D6
  }

  function XorFour(a: bv32, b: bv32, c: bv32, d: bv32): bv32 {
    a ^ b ^ c ^ d
  }

  function AddFive(a: bv32, f: bv32, e: bv32, k: bv32, w: bv32): bv32 {
    a + f + e + k + w
  }

  function LoadWord(block: seq<bv8>, i: nat): bv32
    requires 4 * i + 4 <= |block|
  {
    ((block[4 * i] as bv32) << 24) | ((block[4 * i + 1] as bv32) << 16) | ((block[4 * i + 2] as bv32) << 8)
        | (block[4 * i + 3] as bv32)
  }

  lemma ConstantAgrees(i: nat)
    ensures RoundConstant(i) == Constant(i)
  {
  }

  lemma WordsAgree(a: bv32, b: bv32, c: bv32, d: bv32, e: bv32)
    ensures XorFour(a, b, c, d) == Mix(a, b, c, d) && AddFive(a, b, c, d, e) == Sum(a, b, c, d, e)
  {
  }

  lemma AddIs(x: bv32, y: bv32)
    ensures Add(x, y) == x + y
  {
  }

  lemma LoadAgrees(block: seq<bv8>, i: nat)
    requires 4 * i + 4 <= |block|
    ensures LoadWord(block, i) == Word(block, i)
  {
  }

  // ---------------------------------------------------------------- where the numbers come from

  /** The bytes of the initial hash value, low byte first, count up from 01 and down from FE in steps
      of 22, and down from F0 in steps of 0F, all hexadecimal. */
  lemma InitialIs(k: nat)
    requires k < 4
    ensures var s := 8 * k as bv32;
            && (INITIAL.a >> s) & 0xFF == 0x01 + 0x22 * k as bv32
            && (INITIAL.b >> s) & 0xFF == 0x89 + 0x22 * k as bv32
            && (INITIAL.c >> s) & 0xFF == 0xFE - 0x22 * k as bv32
            && (INITIAL.d >> s) & 0xFF == 0x76 - 0x22 * k as bv32
            && (INITIAL.e >> s) & 0xFF == 0xF0 - 0x0F * k as bv32
  {
    assert k == 0 || k == 1 || k == 2 || k == 3;
  }

  /** The constant of a round, as a number. */
  function ConstantNumber(t: nat): nat {
    Constant(t) as nat
  }

  /** The constants are 2^30 times the square roots of 2, 3, 5 and 10, rounded down. */
  lemma ConstantIs(t: nat)
    ensures var n, k := if t < 20 then 2 else if t < 40 then 3 else if t < 60 then 5 else 10, ConstantNumber(t);
            k * k <= n * 0x1000_0000_0000_0000 < (k + 1) * (k + 1)
  {
    if t < 20 {
      assert ConstantNumber(t) == 0x5A827999;
    } else if t < 40 {
      assert ConstantNumber(t) == 0x6ED9EBA1;
    } else if t < 60 {
      assert ConstantNumber(t) == 0x8F1BBCDC;
    } else {
      assert ConstantNumber(t) == 0xCA62C1D6;
    }
  }

  /** A word holds its four bytes, the first one highest. */
  lemma WordIs(block: seq<bv8>, i: nat)
    requires 4 * i + 4 <= |block|
    ensures var w := Word(block, i);
            && w >> 24 == block[4 * i] as bv32 && (w >> 16) & 0xFF == block[4 * i + 1] as bv32
            && (w >> 8) & 0xFF == block[4 * i + 2] as bv32 && w & 0xFF == block[4 * i + 3] as bv32
  {
    FourBytes(block[4 * i], block[4 * i + 1], block[4 * i + 2], block[4 * i + 3]);
  }

  lemma FourBytes(a: bv8, b: bv8, c: bv8, d: bv8)
    ensures var w := ((a as bv32) << 24) | ((b as bv32) << 16) | ((c as bv32) << 8) | (d as bv32);
            && w >> 24 == a as bv32 && (w >> 16) & 0xFF == b as bv32
            && (w >> 8) & 0xFF == c as bv32 && w & 0xFF == d as bv32
  {
  }

  /** The last four bytes of the length are its value modulo 2^32, the first byte highest. */
  lemma LowLengthIs(bits: nat)
    ensures var b := LowLength(bits);
            b[0] as nat * 0x100_0000 + b[1] as nat * 0x1_0000 + b[2] as nat * 0x100 + b[3] as nat ==
                bits % 0x1_0000_0000
  {
    hide LengthByte;
    LengthByteIs(bits, 0x100_0000);
    LengthByteIs(bits, 0x1_0000);
    LengthByteIs(bits, 0x100);
    LengthByteIs(bits, 1);
    BytesJoin(bits);
  }

  lemma LengthByteIs(bits: nat, shift: nat)
    requires shift > 0
    ensures LengthByte(bits, shift) as nat == bits / shift % 0x100
  {
    NumberBack(bits / shift % 0x100);
  }

  lemma BytesJoin(bits: nat)
    ensures bits / 0x100_0000 % 0x100 * 0x100_0000 + bits / 0x1_0000 % 0x100 * 0x1_0000 + bits / 0x100 % 0x100 * 0x100
            + bits % 0x100 == bits % 0x1_0000_0000
  {
    var a, b, c, e := bits / 0x100, bits / 0x1_0000, bits / 0x100_0000, bits / 0x1_0000_0000;
    SplitByte(bits, a);
    SplitByte(a, b);
    SplitByte(b, c);
    SplitByte(c, e);
  }

  lemma SplitByte(n: nat, q: nat)
    requires q == n / 0x100
    ensures n == q * 0x100 + n % 0x100
  {
  }

  class SHA1 {
    var digest: Digest
    const block: array<bv8>
    var blockByteIndex: nat
    var byteCount: nat
    /** The bytes processed so far. */
    ghost var fed: seq<bv8>

    ghost predicate Valid()
      reads this, block
    {
      && block.Length == 64 && byteCount == |fed| && blockByteIndex == |fed| % 64
      && block[..blockByteIndex] == fed[|fed| - blockByteIndex..]
      && digest == Hash(fed[..|fed| - blockByteIndex])
    }

    constructor ()
      ensures Valid() && fresh(block) && fed == []
    {
      digest := Digest(0x67452301, 0xEFCDAB89, 0x98BADCFE, 0x10325476, 0xC3D2E1F0);
      block := new bv8[64];
      blockByteIndex, byteCount, fed := 0, 0, [];
    }

    /** The 80 words of the block. */
    method Expand() returns (w: array<bv32>)
      requires block.Length == 64
      ensures fresh(w) && w.Length == 80 && forall k :: 0 <= k < 80 ==> w[k] == Schedule(block[..], k)
    {
      hide Schedule, LeftRotate, LoadWord, XorFour;
      ghost var words := block[..];
      w := new bv32[80];
      var i := 0;
      while i < 80
        invariant i <= 80 && forall k :: 0 <= k < i ==> w[k] == Schedule(words, k)
      {
        if i < 16 {
          FirstWords(words, i);
          w[i] := LoadWord(block[..], i);
        } else {
          LaterWords(words, i);
          w[i] := LeftRotate(XorFour(w[i - 3], w[i - 8], w[i - 14], w[i - 16]), 1);
        }
        i := i + 1;
      }
    }

    /** One block into the digest. */
    method ProcessBlock()
      requires block.Length == 64
      modifies `digest
      ensures digest == Compress(block[..], old(digest))
    {
      hide Schedule, LeftRotate, RoundFunction, RoundConstant, Rounds, AddFive, Add;
      ghost var words := block[..];
      var w := Expand();
      var a, b, c, d, e := digest.a, digest.b, digest.c, digest.d, digest.e;
      NoRounds(words, digest);
      var i := 0;
      while i < 80
        invariant i <= 80 && Digest(a, b, c, d, e) == Rounds(words, digest, i)
        invariant digest == old(digest) && forall k :: 0 <= k < 80 ==> w[k] == Schedule(words, k)
      {
        RoundStep(words, digest, i);
        var temp := AddFive(LeftRotate(a, 5), RoundFunction(i, b, c, d), e, RoundConstant(i), w[i]);
        a, b, c, d, e := temp, a, LeftRotate(b, 30), c, d;
        i := i + 1;
      }
      digest := digest.(a := Add(digest.a, a), b := Add(digest.b, b), c := Add(digest.c, c), d := Add(digest.d, d),
                        e := Add(digest.e, e));
    }

    method ProcessByte(octet: bv8)
      requires Valid()
      modifies this, block
      ensures Valid() && fed == old(fed) + [octet]
      ensures old(blockByteIndex) < 64
      ensures blockByteIndex == if old(blockByteIndex) == 63 then 0 else old(blockByteIndex) + 1
    {
      hide Hash, Compress;
      NextByte(fed, block[..blockByteIndex], octet);
      block[blockByteIndex] := octet;
      assert block[..blockByteIndex + 1] == old(block[..blockByteIndex]) + [octet];
      blockByteIndex := blockByteIndex + 1;
      byteCount := byteCount + 1;
      fed := fed + [octet];
      if blockByteIndex == 64 {
        blockByteIndex := 0;
        ProcessBlock();
        assert block[..64] == block[..];
        WholeBlock(fed);
      }
    }

    method ProcessBytes(data: seq<bv8>)
      requires Valid()
      modifies this, block
      ensures Valid() && fed == old(fed) + data
    {
      hide Hash;
      var i := 0;
      while i < |data|
        invariant i <= |data| && Valid() && fed == old(fed) + data[..i]
      {
        ProcessByte(data[i]);
        assert data[..i + 1] == data[..i] + [data[i]];
        i := i + 1;
      }
      assert data[..i] == data;
    }

    /** Zero bytes up to position `stop` of the block. */
    method ZeroUntil(stop: nat)
      requires Valid() && (stop == 0 || blockByteIndex <= stop < 64)
      modifies this, block
      ensures Valid() && blockByteIndex == stop
      ensures fed == old(fed) + Zeros(Gap(old(blockByteIndex), stop))
    {
      hide Hash, Gap, Zeros;
      ghost var n: nat := 0;
      IndexSmall(|fed|);
      NoZeros(stop);
      while blockByteIndex != stop
        invariant Valid() && (stop == 0 || blockByteIndex <= stop) && blockByteIndex < 64
        invariant fed == old(fed) + Zeros(n)
        invariant n + Gap(blockByteIndex, stop) == Gap(old(blockByteIndex), stop)
        decreases Gap(blockByteIndex, stop)
      {
        GapNext(blockByteIndex, stop);
        ProcessByte(0);
        MoreZeros(n);
        n := n + 1;
      }
    }

    /** The length at the end of the last block. */
    method WriteLength(bitCount: nat)
      requires Valid() && blockByteIndex == 56
      modifies this, block
      ensures Valid() && blockByteIndex == 0 && fed == old(fed) + Zeros(4) + LowLength(bitCount)
    {
      hide Hash, LengthByte, Zeros;
      ZerosFour();
      ProcessFour(0, 0, 0, 0);
      ProcessFour(LengthByte(bitCount, 0x100_0000), LengthByte(bitCount, 0x1_0000), LengthByte(bitCount, 0x100),
                  LengthByte(bitCount, 1));
    }

    /** Two bytes, one after the other. */
    method ProcessTwo(b0: bv8, b1: bv8)
      requires Valid() && blockByteIndex <= 62
      modifies this, block
      ensures Valid() && fed == old(fed) + [b0, b1]
      ensures blockByteIndex == if old(blockByteIndex) == 62 then 0 else old(blockByteIndex) + 2
    {
      hide Hash;
      ProcessByte(b0);
      ProcessByte(b1);
    }

    /** Four bytes, one after the other. */
    method ProcessFour(b0: bv8, b1: bv8, b2: bv8, b3: bv8)
      requires Valid() && blockByteIndex <= 60
      modifies this, block
      ensures Valid() && fed == old(fed) + [b0, b1, b2, b3]
      ensures blockByteIndex == if old(blockByteIndex) == 60 then 0 else old(blockByteIndex) + 4
    {
      hide Hash;
      ProcessTwo(b0, b1);
      ProcessTwo(b2, b3);
    }

    /** The padding in front of the length. */
    method FillBlock()
      requires Valid()
      modifies this, block
      ensures Valid() && blockByteIndex == 56 && fed == old(fed) + [0x80] + Zeros(ZeroCount(|old(fed)|))
    {
      hide Hash, Zeros, ZeroCount, Gap;
      ghost var m := fed;
      IndexSmall(|fed| + 1);
      PaddingZeros(|m|);
      ProcessByte(0x80);
      ghost var index := blockByteIndex;
      if blockByteIndex > 56 {
        ZeroUntil(0);
        assert fed == m + [0x80] + Zeros(Gap(index, 0));
        ZeroUntil(56);
        assert fed == m + [0x80] + (Zeros(Gap(index, 0)) + Zeros(Gap(0, 56)));
      } else {
        ZeroUntil(56);
      }
    }

    /** The digest of the bytes processed so far; they are padded in place. */
    method GetDigest() returns (r: Digest)
      requires Valid()
      modifies this, block
      ensures r == Hash(ShortPadded(old(fed)))
    {
      hide Hash, Zeros, ZeroCount, LowLength;
      var bitCount := byteCount * 8;
      ghost var m := fed;
      FillBlock();
      WriteLength(bitCount);
      assert fed == ShortPadded(m);
      r := digest;
      assert fed[..|fed|] == fed;
    }
  }

  /** Steps from one position of the block to another. */
  function Gap(index: nat, stop: nat): nat
    requires index < 64 && stop < 64
  {
    (stop + 64 - index) % 64
  }

  lemma IndexSmall(n: nat)
    ensures n % 64 < 64
  {
  }

  lemma NoZeros(stop: nat)
    requires stop < 64
    ensures Zeros(0) == [] && Gap(stop, stop) == 0
  {
  }

  lemma MoreZeros(n: nat)
    ensures Zeros(n + 1) == Zeros(n) + [0]
  {
  }

  lemma GapNext(index: nat, stop: nat)
    requires index < 64 && stop < 64 && index != stop
    ensures Gap(if index == 63 then 0 else index + 1, stop) + 1 == Gap(index, stop)
  {
    assert Gap(index, stop) == if index <= stop then stop - index else stop + 64 - index;
  }

  lemma NextByte(fed: seq<bv8>, part: seq<bv8>, octet: bv8)
    requires |part| == |fed| % 64 && part == fed[|fed| - |part|..]
    ensures var g := fed + [octet];
            && |part| < 64 && g[..|g| - |part| - 1] == fed[..|fed| - |part|] && g[|g| - |part| - 1..] == part + [octet]
            && |g| % 64 == if |part| == 63 then 0 else |part| + 1
  {
  }

  lemma WholeBlock(fed: seq<bv8>)
    requires |fed| % 64 == 0 && fed != []
    ensures Hash(fed) == Compress(fed[|fed| - 64..], Hash(fed[..|fed| - 64])) && fed[..|fed|] == fed
            && fed[|fed|..] == []
  {
    hide Compress;
  }

  /** The two ways to the last 8 bytes of a block. */
  lemma PaddingZeros(n: nat)
    ensures var i := (n + 1) % 64;
            if i > 56 then Zeros(Gap(i, 0)) + Zeros(Gap(0, 56)) == Zeros(ZeroCount(n)) else Gap(i, 56) == ZeroCount(n)
  {
    var q, r := n / 64, n % 64;
    assert n == 64 * q + r;
    if r == 63 {
      Multiple(q + 1, 0);
    } else {
      Multiple(q, r + 1);
    }
    var i := (n + 1) % 64;
    if i > 56 {
      assert Gap(i, 0) == 64 - i && Gap(0, 56) == 56;
      assert Gap(i, 0) + Gap(0, 56) == ZeroCount(n);
    }
  }

  lemma ZerosFour()
    ensures Zeros(4) == [0, 0, 0, 0]
  {
  }

  lemma ByteZero(n: nat)
    requires n < 0x100
    ensures n as bv8 == 0 <==> n == 0
  {
  }

  lemma BytesZero(x: nat)
    requires x < 0x1_0000_0000
    requires x / 0x100_0000 % 0x100 == 0 && x / 0x1_0000 % 0x100 == 0 && x / 0x100 % 0x100 == 0 && x % 0x100 == 0
    ensures x == 0
  {
  }

  lemma LengthZero(x: nat)
    requires x < 0x1_0000_0000
    ensures LowLength(x) == Zeros(4) <==> x == 0
  {
    ZerosFour();
    ByteZero(x / 0x100_0000 % 0x100);
    ByteZero(x / 0x1_0000 % 0x100);
    ByteZero(x / 0x100 % 0x100);
    ByteZero(x % 0x100);
    if LowLength(x) == Zeros(4) {
      BytesZero(x);
    }
  }

  /** The padding is the standard's exactly for messages of less than 2^29 bytes (of the 2^61 that
      the standard allows). */
  lemma PaddingStandard(m: seq<bv8>)
    requires |m| < 0x2000_0000_0000_0000
    ensures ShortPadded(m) == Padded(m) <==> |m| < 0x2000_0000
  {
    var high := |m| * 8 / 0x1_0000_0000;
    LengthZero(high);
    var front := m + [0x80] + Zeros(ZeroCount(|m|));
    var k := |front|;
    assert ShortPadded(m)[k..k + 4] == Zeros(4);
    assert Padded(m)[k..k + 4] == LowLength(high);
  }

  /** The digest of a message handed over in any pieces is its SHA-1 hash, if it is shorter than
      2^29 bytes. */
  method DigestOf(pieces: seq<seq<bv8>>) returns (r: Digest)
    requires |Joined(pieces)| < 0x2000_0000
    ensures r == Hash(Padded(Joined(pieces)))
  {
    hide Hash, Padded, ShortPadded;
    var sha := new SHA1();
    var i := 0;
    while i < |pieces|
      invariant i <= |pieces| && sha.Valid() && fresh(sha) && fresh(sha.block) && sha.fed == Joined(pieces[..i])
    {
      sha.ProcessBytes(pieces[i]);
      assert pieces[..i + 1][..i] == pieces[..i];
      i := i + 1;
    }
    assert pieces[..i] == pieces;
    PaddingStandard(Joined(pieces));
    r := sha.GetDigest();
  }

  function Joined(pieces: seq<seq<bv8>>): seq<bv8> {
    if pieces == [] then [] else Joined(pieces[..|pieces| - 1]) + pieces[|pieces| - 1]
  }

  lemma FirstWords(block: seq<bv8>, t: nat)
    requires |block| == 64 && t < 16
    ensures Schedule(block, t) == LoadWord(block, t)
  {
    hide Word, LoadWord;
    LoadAgrees(block, t);
  }

  lemma LaterWords(block: seq<bv8>, t: nat)
    requires |block| == 64 && 16 <= t
    ensures Schedule(block, t) ==
            LeftRotate(XorFour(Schedule(block, t - 3), Schedule(block, t - 8), Schedule(block, t - 14),
                               Schedule(block, t - 16)), 1)
  {
    hide Word, Rotl, Mix, XorFour;
    WordsAgree(Schedule(block, t - 3), Schedule(block, t - 8), Schedule(block, t - 14), Schedule(block, t - 16), 0);
    RotateAgrees(Mix(Schedule(block, t - 3), Schedule(block, t - 8), Schedule(block, t - 14), Schedule(block, t - 16)));
    hide LeftRotate;
  }

  lemma NoRounds(block: seq<bv8>, h: Digest)
    requires |block| == 64
    ensures Rounds(block, h, 0) == h
  {
  }

  /** One round of the implementation is one round of the standard. */
  lemma RoundStep(block: seq<bv8>, h: Digest, i: nat)
    requires |block| == 64
    ensures var v := Rounds(block, h, i);
            Rounds(block, h, i + 1) ==
            Digest(AddFive(LeftRotate(v.a, 5), RoundFunction(i, v.b, v.c, v.d), v.e, RoundConstant(i),
                           Schedule(block, i)),
                   v.a, LeftRotate(v.b, 30), v.c, v.d)
  {
    hide Schedule, Rotl, LeftRotate, RoundFunction, Function, Constant, RoundConstant, Sum, AddFive;
    var v := Rounds(block, h, i);
    ConstantAgrees(i);
    WordsAgree(Rotl(v.a, 5), Function(i, v.b, v.c, v.d), v.e, Constant(i), Schedule(block, i));
    RotateAgrees(v.a);
    RotateAgrees(v.b);
    FunctionAgrees(i, v.b, v.c, v.d);
  }
}
