/** WebSocket frames as bytes (section 5.2 of RFC 6455): the header the server writes, and the
    arithmetic with which it reads one. */
module WebSocketFrame {
  import opened Basics
  import opened Vectors

  // ---------------------------------------------------------------- masking

  /** The payload with every byte combined with its byte of the mask. */
  function Masked(mask: seq<byte>, p: seq<byte>): (r: seq<byte>)
    requires |mask| == 4
    ensures |r| == |p|
  {
    seq(|p|, i requires 0 <= i < |p| => Xor(p[i], mask[i % 4]))
  }

  function Xor(a: byte, b: byte): byte {
    Number(Bits(a) ^ Bits(b))
  }

  lemma XorBits(a: byte, b: byte)
    ensures Bits(Xor(a, b)) == Bits(a) ^ Bits(b)
  {
    hide Bits, Number;
    BitsBack(Bits(a) ^ Bits(b));
  }

  lemma XorBack(a: byte, b: byte)
    ensures Xor(Xor(a, b), b) == a
  {
    hide Xor, Bits, Number;
    XorBits(a, b);
    XorBits(Xor(a, b), b);
    VectorTwice(Bits(a), Bits(b));
    SameBits(Xor(Xor(a, b), b), a);
  }

  lemma VectorTwice(x: bv8, y: bv8)
    ensures x ^ y ^ y == x
  {
  }

  lemma MaskedBack(mask: seq<byte>, p: seq<byte>)
    requires |mask| == 4
    ensures Masked(mask, Masked(mask, p)) == p
  {
    hide Xor;
    forall i | 0 <= i < |p| ensures Masked(mask, Masked(mask, p))[i] == p[i] {
      XorBack(p[i], mask[i % 4]);
    }
  }

  // ---------------------------------------------------------------- byte order

  /** The first byte and the rest of a number, low byte first. */
  function Join(low: byte, rest: nat): nat {
    low as nat + 0x100 * rest
  }

  /** Numbers as a little-endian host loads bytes. */
  function Load16(b: seq<byte>): nat
    requires |b| == 2
  {
    Join(b[0], b[1])
  }

  function Load32(b: seq<byte>): nat
    requires |b| == 4
  {
    Join(b[0], Join(b[1], Join(b[2], b[3])))
  }

  function Load64(b: seq<byte>): nat
    requires |b| == 8
  {
    Load32(b[..4]) + Load32(b[4..]) * 0x1_0000_0000
  }

  /** Byte number `k` of a number, counted from the low end. */
  function ByteOf(n: nat, k: nat): byte {
    if k == 0 then n % 0x100 else ByteOf(n / 0x100, k - 1)
  }

  /** `ntohs` and `htons`. */
  function Swap16(n: nat): nat {
    Join(ByteOf(n, 1), ByteOf(n, 0))
  }

  /** `ntohl` and `htonl`. */
  function Swap32(n: nat): nat {
    Join(ByteOf(n, 3), Join(ByteOf(n, 2), Join(ByteOf(n, 1), ByteOf(n, 0))))
  }

  /** The swap of a 64-bit length as both directions compute it. */
  function Swap64(n: nat): nat {
    Swap32(n % 0x1_0000_0000) * 0x1_0000_0000 + Swap32(n / 0x1_0000_0000)
  }

  /** Bytes in network order. */
  function Big16(n: nat): (b: seq<byte>)
    ensures |b| == 2
  {
    [ByteOf(n, 1), ByteOf(n, 0)]
  }

  function Big32(n: nat): (b: seq<byte>)
    ensures |b| == 4
  {
    [ByteOf(n, 3), ByteOf(n, 2), ByteOf(n, 1), ByteOf(n, 0)]
  }

  function Big64(n: nat): (b: seq<byte>)
    ensures |b| == 8
  {
    Big32(n / 0x1_0000_0000) + Big32(n % 0x1_0000_0000)
  }

  lemma JoinSplit(low: byte, rest: nat)
    ensures Join(low, rest) % 0x100 == low && Join(low, rest) / 0x100 == rest
  {
  }

  /** The bytes of a loaded number. */
  lemma LoadBytes(a: byte, b: byte, c: byte, d: byte)
    ensures var n := Join(a, Join(b, Join(c, d)));
            ByteOf(n, 0) == a && ByteOf(n, 1) == b && ByteOf(n, 2) == c && ByteOf(n, 3) == d && n < 0x1_0000_0000
  {
    JoinSplit(a, Join(b, Join(c, d)));
    JoinSplit(b, Join(c, d));
    JoinSplit(c, d);
    assert Join(c, d) < 0x1_0000;
    assert Join(b, Join(c, d)) < 0x100_0000;
    assert Join(a, Join(b, Join(c, d))) < 0x1_0000_0000;
    hide Join;
    assert ByteOf(Join(c, d), 1) == d;
    assert ByteOf(Join(b, Join(c, d)), 2) == d && ByteOf(Join(b, Join(c, d)), 1) == c;
  }

  lemma SplitJoin(n: nat)
    ensures Join(n % 0x100, n / 0x100) == n
  {
  }

  lemma ByteStep(n: nat, k: nat)
    ensures ByteOf(n, 0) == n % 0x100 && ByteOf(n, k + 1) == ByteOf(n / 0x100, k)
  {
  }

  lemma Shrinks(n: nat, m: nat)
    requires n < m * 0x100
    ensures n / 0x100 < m
  {
  }

  /** A number of 32 bits is the sum of its bytes. */
  lemma JoinBytes(n: nat)
    requires n < 0x1_0000_0000
    ensures Join(ByteOf(n, 0), Join(ByteOf(n, 1), Join(ByteOf(n, 2), ByteOf(n, 3)))) == n
  {
    hide Join, ByteOf;
    var n1 := n / 0x100;
    var n2 := n1 / 0x100;
    SplitJoin(n);
    SplitJoin(n1);
    SplitJoin(n2);
    ByteStep(n, 0);
    ByteStep(n, 1);
    ByteStep(n, 2);
    ByteStep(n1, 0);
    ByteStep(n1, 1);
    ByteStep(n2, 0);
    ByteStep(n2 / 0x100, 0);
    Shrinks(n, 0x100_0000);
    Shrinks(n1, 0x1_0000);
    Shrinks(n2, 0x100);
  }

  lemma LoadPair(a: byte, b: byte)
    ensures ByteOf(Join(a, b), 0) == a && ByteOf(Join(a, b), 1) == b && Join(a, b) < 0x1_0000
  {
    JoinSplit(a, b);
    assert ByteOf(Join(a, b), 1) == ByteOf(b, 0);
  }

  lemma JoinPair(n: nat)
    requires n < 0x1_0000
    ensures Join(ByteOf(n, 0), ByteOf(n, 1)) == n
  {
    hide Join, ByteOf;
    SplitJoin(n);
    ByteStep(n, 0);
    ByteStep(n / 0x100, 0);
    Shrinks(n, 0x100);
  }

  lemma Read16(n: nat)
    requires n < 0x1_0000
    ensures Swap16(Load16(Big16(n))) == n && Load16(Big16(n)) < 0x1_0000
  {
    LoadPair(ByteOf(n, 1), ByteOf(n, 0));
    JoinPair(n);
    hide Join, ByteOf;
  }

  lemma Read32(n: nat)
    requires n < 0x1_0000_0000
    ensures Swap32(Load32(Big32(n))) == n && Load32(Big32(n)) < 0x1_0000_0000
  {
    hide Join, ByteOf;
    LoadBytes(ByteOf(n, 3), ByteOf(n, 2), ByteOf(n, 1), ByteOf(n, 0));
    JoinBytes(n);
  }

  /** A length read in network order is the length. */
  lemma Read64(n: nat)
    requires n < 0x1_0000_0000_0000_0000
    ensures Swap64(Load64(Big64(n))) == n
  {
    hide Swap32, Big32, Load32;
    var hi, lo := n / 0x1_0000_0000, n % 0x1_0000_0000;
    Read32(hi);
    Read32(lo);
    assert Big64(n)[..4] == Big32(hi) && Big64(n)[4..] == Big32(lo);
  }

  /** In network order the first byte is the highest. */
  lemma NetworkOrder(n: nat)
    ensures n < 0x1_0000 ==> n == Big16(n)[0] as nat * 0x100 + Big16(n)[1]
    ensures n < 0x1_0000_0000 ==>
              n == Big32(n)[0] as nat * 0x100_0000 + Big32(n)[1] as nat * 0x1_0000 + Big32(n)[2] as nat * 0x100
                  + Big32(n)[3]
  {
    hide ByteOf;
    if n < 0x1_0000 {
      JoinPair(n);
    }
    if n < 0x1_0000_0000 {
      JoinBytes(n);
    }
  }

  lemma NetworkOrder64(n: nat)
    requires n < 0x1_0000_0000_0000_0000
    ensures var b := Big64(n);
            n == (b[0] as nat * 0x100_0000 + b[1] as nat * 0x1_0000 + b[2] as nat * 0x100 + b[3]) * 0x1_0000_0000
                 + (b[4] as nat * 0x100_0000 + b[5] as nat * 0x1_0000 + b[6] as nat * 0x100 + b[7])
  {
    hide Big32;
    NetworkOrder(n / 0x1_0000_0000);
    NetworkOrder(n % 0x1_0000_0000);
  }

  // ---------------------------------------------------------------- frames

  datatype Form = Short | Medium | Long

  /** A frame as a peer writes it: any of the length forms that can hold the length. */
  datatype Frame = Frame(fin: bool, rsv: nat, opcode: nat, form: Form, mask: Option<seq<byte>>, payload: seq<byte>)

  predicate ValidFrame(f: Frame) {
    && f.rsv < 8 && f.opcode < 16
    && (f.mask.Some? ==> |f.mask.value| == 4)
    && match f.form
       case Short => |f.payload| < 126
       case Medium => |f.payload| < 0x1_0000
       case Long => |f.payload| < 0x1_0000_0000_0000_0000
  }

  function FirstByte(f: Frame): byte
    requires ValidFrame(f)
  {
    (if f.fin then 128 else 0) + f.rsv * 16 + f.opcode
  }

  function SecondByte(f: Frame): byte
    requires ValidFrame(f)
  {
    (if f.mask.Some? then 128 else 0) + match f.form case Short => |f.payload| case Medium => 126 case Long => 127
  }

  function LengthBytes(f: Frame): seq<byte>
    requires ValidFrame(f)
  {
    match f.form
    case Short => []
    case Medium => Big16(|f.payload|)
    case Long => Big64(|f.payload|)
  }

  function MaskBytes(f: Frame): seq<byte> {
    if f.mask.Some? then f.mask.value else []
  }

  /** The payload as it travels. */
  function Wire(f: Frame): (r: seq<byte>)
    requires ValidFrame(f)
    ensures |r| == |f.payload|
  {
    if f.mask.Some? then
      seq(|f.payload|, i requires 0 <= i < |f.payload| =>
        Number(Bits(f.payload[i]) ^ Bits(f.mask.value[i % 4])))
    else f.payload
  }

  function FrameBytes(f: Frame): seq<byte>
    requires ValidFrame(f)
  {
    [FirstByte(f), SecondByte(f)] + LengthBytes(f) + MaskBytes(f) + Wire(f)
  }

  // ---------------------------------------------------------------- the header the server writes

  lemma XorIs(a: byte, b: byte, c: byte)
    requires Bits(c) == Bits(a) ^ Bits(b)
    ensures Xor(a, b) == c
  {
    hide Xor, Bits, Number;
    XorBits(a, b);
    SameBits(Xor(a, b), c);
  }

  /** The frame of section 5.7 of RFC 6455 that carries "Hello" under a mask. */
  lemma HelloFrame(f: Frame)
    requires f == Frame(true, 0, 1, Short, Some([0x37, 0xFA, 0x21, 0x3D]), [0x48, 0x65, 0x6C, 0x6C, 0x6F])
    ensures ValidFrame(f)
    ensures FrameBytes(f) == [0x81, 0x85, 0x37, 0xFA, 0x21, 0x3D, 0x7F, 0x9F, 0x4D, 0x51, 0x58]
  {
    hide Wire;
    HelloWire(f);
  }

  lemma HelloWire(f: Frame)
    requires ValidFrame(f) && f.mask == Some([0x37, 0xFA, 0x21, 0x3D]) && f.payload == [0x48, 0x65, 0x6C, 0x6C, 0x6F]
    ensures Wire(f) == [0x7F, 0x9F, 0x4D, 0x51, 0x58]
  {
    hide Xor, Wire;
    WireMasked(f);
    XorIs(0x48, 0x37, 0x7F);
    XorIs(0x65, 0xFA, 0x9F);
    XorIs(0x6C, 0x21, 0x4D);
    XorIs(0x6C, 0x3D, 0x51);
    XorIs(0x6F, 0x37, 0x58);
  }

  lemma WireMasked(f: Frame)
    requires ValidFrame(f) && f.mask.Some?
    ensures Wire(f) == Masked(f.mask.value, f.payload)
  {
  }

  /** The bytes of a number as a little-endian host stores it. */
  function Store16(n: nat): (b: seq<byte>)
    ensures |b| == 2
  {
    [ByteOf(n, 0), ByteOf(n, 1)]
  }

  function Store32(n: nat): (b: seq<byte>)
    ensures |b| == 4
  {
    [ByteOf(n, 0), ByteOf(n, 1), ByteOf(n, 2), ByteOf(n, 3)]
  }

  function Store64(n: nat): (b: seq<byte>)
    ensures |b| == 8
  {
    Store32(n % 0x1_0000_0000) + Store32(n / 0x1_0000_0000)
  }

  /** `build_header`. */
  function BuildHeader(opcode: nat, size: nat): (b: seq<byte>)
    requires opcode < 16 && size < 0x1_0000_0000_0000_0000
    ensures 2 <= |b| <= 10
  {
    if size < 126 then [0x80 + opcode, size]
    else if size < 0x1_0000 then [0x80 + opcode, 126] + Store16(Swap16(size))
    else [0x80 + opcode, 127] + Store64(Swap64(size))
  }

  lemma Store16Big(n: nat)
    ensures Store16(Swap16(n)) == Big16(n)
  {
    LoadPair(ByteOf(n, 1), ByteOf(n, 0));
    hide Join, ByteOf;
  }

  lemma Store32Big(n: nat)
    ensures Swap32(n) < 0x1_0000_0000 && Store32(Swap32(n)) == Big32(n)
  {
    hide Join, ByteOf;
    LoadBytes(ByteOf(n, 3), ByteOf(n, 2), ByteOf(n, 1), ByteOf(n, 0));
  }

  lemma Store64Big(n: nat)
    ensures Store64(Swap64(n)) == Big64(n)
  {
    hide Swap32, Store32, Big32;
    var hi, lo := n / 0x1_0000_0000, n % 0x1_0000_0000;
    Store32Big(hi);
    Store32Big(lo);
    assert Swap64(n) % 0x1_0000_0000 == Swap32(hi) && Swap64(n) / 0x1_0000_0000 == Swap32(lo);
  }

  /** The frame the server means by a header and a payload. */
  function ServerFrame(opcode: nat, p: seq<byte>): Frame {
    Frame(true, 0, opcode, if |p| < 126 then Short else if |p| < 0x1_0000 then Medium else Long, None, p)
  }

  /** Header and payload are the bytes of an unmasked, final frame with the shortest length form. */
  lemma HeaderMeans(opcode: nat, p: seq<byte>)
    requires opcode < 16 && |p| < 0x1_0000_0000_0000_0000
    ensures ValidFrame(ServerFrame(opcode, p)) && BuildHeader(opcode, |p|) + p == FrameBytes(ServerFrame(opcode, p))
  {
    hide Swap16, Swap64, Store16, Store64, Big16, Big64;
    Store16Big(|p|);
    Store64Big(|p|);
  }
}
