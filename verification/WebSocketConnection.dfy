/** A WebSocket connection: a reader that is told how many bytes arrived, whenever they do, and the
    handling of complete frames. */
module WebSocketConnection {
  import opened Basics
  import opened Vectors
  import opened WebSocketFrame

  datatype ReadState = MiniHeader | Len16 | Len64 | MaskState | Payload

  /** Size of the buffer that payload bytes are read into. */
  const BUFFER_SIZE := 4096

  /** What handlers and peer have been given, and what the handling of the next frame depends on. */
  datatype Conn = Conn(
    message: seq<byte>, isBinary: bool, delivered: seq<(seq<byte>, bool)>,
    written: seq<byte>, pongReceived: bool,
    receivedClose: bool, sentClose: bool, closeHandled: bool, closeNotices: seq<seq<byte>>, closed: bool)

  function Send(c: Conn, opcode: nat, p: seq<byte>): Conn
    requires opcode < 16
  {
    if |p| < 0x1_0000_0000_0000_0000 then c.(written := c.written + BuildHeader(opcode, |p|) + p) else c
  }

  function NoticeClose(c: Conn, p: seq<byte>): Conn {
    if c.closeHandled then c else c.(closeHandled := true, closeNotices := c.closeNotices + [p])
  }

  /** The effect of one complete frame. */
  function Handle(c: Conn, fin: bool, opcode: nat, p: seq<byte>): Conn {
    if opcode < 3 then
      var whole := c.message + p;
      var binary := if opcode == 0 then c.isBinary else opcode == 2;
      if fin then c.(message := [], isBinary := binary, delivered := c.delivered + [(whole, binary)])
      else c.(message := whole, isBinary := binary)
    else if opcode == 8 then
      var d := c.(receivedClose := true);
      if !c.sentClose then Send(NoticeClose(d.(sentClose := true), p), 8, p)
      else NoticeClose(d.(closed := true), p)
    else if opcode == 9 then Send(c, 10, p)
    else if opcode == 10 then c.(pongReceived := true)
    else c
  }

  /** Frames one after the other, until the connection is closed. */
  function HandleAll(c: Conn, fs: seq<Frame>): Conn {
    if fs == [] then c
    else
      var d := HandleAll(c, fs[..|fs| - 1]);
      var f := fs[|fs| - 1];
      if d.closed then d else Handle(d, f.fin, f.opcode, f.payload)
  }

  predicate AllValid(fs: seq<Frame>) {
    forall i :: 0 <= i < |fs| ==> ValidFrame(fs[i])
  }

  function StreamBytes(fs: seq<Frame>): seq<byte>
    requires AllValid(fs)
  {
    if fs == [] then [] else StreamBytes(fs[..|fs| - 1]) + FrameBytes(fs[|fs| - 1])
  }

  /** The bytes `x` stand in the stream from `start` on. */
  predicate Stands(stream: seq<byte>, start: nat, x: seq<byte>) {
    start + |x| <= |stream| && stream[start..start + |x|] == x
  }

  lemma HighByte(b0: byte, b1: byte)
    ensures var n := b1 as nat + 0x100 * b0 as nat;
            n / 0x100 == b0 && n / 0x8000 == b0 / 128
  {
    var q, r := b0 / 128, b0 % 128;
    assert b0 == 128 * q + r;
    assert b1 as nat + 0x100 * b0 as nat == 0x8000 * q + (0x100 * r + b1 as nat);
  }

  lemma LowByte(b0: byte, b1: byte)
    ensures var n := b1 as nat + 0x100 * b0 as nat;
            n / 0x80 % 2 == b1 / 128 && n % 0x80 == b1 % 128
  {
    var q, r := b1 / 128, b1 % 128;
    assert b1 == 128 * q + r && q < 2;
    assert b1 as nat + 0x100 * b0 as nat == 0x80 * (2 * b0 as nat + q) + r;
  }

  /** The parts of the header word. */
  lemma MiniBits(b0: byte, b1: byte)
    ensures var n := Swap16(Load16([b0, b1]));
            n / 0x8000 % 2 == b0 / 128 && n / 0x100 % 0x10 == b0 % 16 && n / 0x80 % 2 == b1 / 128
                && n % 0x80 == b1 % 128
  {
    LoadPair(b0, b1);
    HighByte(b0, b1);
    LowByte(b0, b1);
    hide ByteOf;
    assert Swap16(Load16([b0, b1])) == b1 as nat + 0x100 * b0 as nat;
  }

  class Connection {
    var state: ReadState
    var miniHeader: nat
    var hasMask: bool
    var remaining: nat
    var mask: seq<byte>
    var fragment: seq<byte>
    var conn: Conn

    constructor ()
      ensures state == MiniHeader && fragment == [] && |mask| == 4
      ensures conn == Conn([], false, [], [], false, false, false, false, [], false)
    {
      state, miniHeader, hasMask, remaining, mask, fragment := MiniHeader, 0, false, 0, [0, 0, 0, 0], [];
      conn := Conn([], false, [], [], false, false, false, false, [], false);
    }

    /** The header word of frame `f` has been read. */
    ghost predicate HeaderOf(f: Frame)
      requires ValidFrame(f)
      reads this
    {
      && miniHeader / 0x8000 % 2 == (if f.fin then 1 else 0) && miniHeader / 0x100 % 0x10 == f.opcode
      && hasMask == f.mask.Some? && |mask| == 4
    }

    /** `off` bytes of frame `f` have been read. */
    ghost predicate Phase(f: Frame, off: nat)
      requires ValidFrame(f)
      reads this
    {
      match state
      case MiniHeader => off == 0 && fragment == [] && |mask| == 4
      case Len16 => off == 2 && f.form.Medium? && fragment == [] && HeaderOf(f)
      case Len64 => off == 2 && f.form.Long? && fragment == [] && HeaderOf(f)
      case MaskState => off == 2 + |LengthBytes(f)| && fragment == [] && remaining == |f.payload| && HeaderOf(f)
      case Payload =>
        && off == 2 + |LengthBytes(f)| + |MaskBytes(f)| + |fragment| && |fragment| + remaining == |f.payload|
        && fragment == Wire(f)[..|fragment|] && HeaderOf(f) && (f.mask.Some? ==> mask == f.mask.value)
    }

    /** The loop that unmasks the fragment in place. */
    method Unmask()
      requires |mask| == 4
      modifies `fragment
      ensures |fragment| == |old(fragment)|
      ensures forall i :: 0 <= i < |fragment| ==>
                Bits(fragment[i]) == Bits(old(fragment)[i]) ^ Bits(mask[i % 4])
      ensures fragment == Masked(mask, old(fragment))
    {
      hide Xor, Bits;
      var i := 0;
      while i < |fragment|
        invariant i <= |fragment| && |fragment| == |old(fragment)|
        invariant forall k :: 0 <= k < i ==> fragment[k] == Xor(old(fragment)[k], mask[k % 4])
        invariant forall k :: i <= k < |fragment| ==> fragment[k] == old(fragment)[k]
      {
        fragment := fragment[i := Xor(fragment[i], mask[i % 4])];
        i := i + 1;
      }
      forall i | 0 <= i < |fragment| ensures Bits(fragment[i]) == Bits(old(fragment)[i]) ^ Bits(mask[i % 4]) {
        XorBits(old(fragment)[i], mask[i % 4]);
      }
    }

    /** Continuation, text and binary frames. */
    method HandleData(fin: bool, opcode: nat)
      requires opcode < 3
      modifies `conn
      ensures conn == Handle(old(conn), fin, opcode, fragment)
    {
      hide BuildHeader, Send, NoticeClose;
      if opcode != 0 {
        conn := conn.(isBinary := opcode == 2);
      }
      conn := conn.(message := conn.message + fragment);
      if fin {
        conn := conn.(delivered := conn.delivered + [(conn.message, conn.isBinary)]);
        conn := conn.(message := []);
      }
    }

    /** Close, ping and pong frames; others are ignored. */
    method HandleControl(fin: bool, opcode: nat)
      requires 3 <= opcode
      modifies `conn
      ensures conn == Handle(old(conn), fin, opcode, fragment)
    {
      hide BuildHeader, Send;
      if opcode == 8 {
        conn := conn.(receivedClose := true);
        if !conn.sentClose {
          Close(fragment);
        } else {
          conn := NoticeClose(conn.(closed := true), fragment);
        }
      } else if opcode == 9 {
        Write(10, fragment);
      } else if opcode == 10 {
        conn := conn.(pongReceived := true);
      }
    }

    /** `handle_fragment`: unmask in place, then act on the opcode. */
    method HandleFragment()
      requires |mask| == 4
      modifies this
      ensures fragment == [] && mask == old(mask) && state == old(state)
      ensures var p := if old(hasMask) then Masked(old(mask), old(fragment)) else old(fragment);
              conn == Handle(old(conn), old(miniHeader) / 0x8000 % 2 == 1, old(miniHeader) / 0x100 % 0x10, p)
    {
      hide Masked, Handle;
      if hasMask {
        Unmask();
      }
      var fin, opcode := miniHeader / 0x8000 % 2 == 1, miniHeader / 0x100 % 0x10;
      if opcode < 3 {
        HandleData(fin, opcode);
      } else {
        HandleControl(fin, opcode);
      }
      fragment := [];
    }

    /** `close`. */
    method Close(msg: seq<byte>)
      modifies `conn
      ensures var d := old(conn).(sentClose := true);
              conn == Send(if old(conn).receivedClose then NoticeClose(d, msg) else d, 8, msg)
    {
      conn := conn.(sentClose := true);
      if conn.receivedClose && !conn.closeHandled {
        conn := conn.(closeHandled := true, closeNotices := conn.closeNotices + [msg]);
      }
      Write(8, msg);
    }

    /** Header and payload go to the socket. */
    method Write(opcode: nat, p: seq<byte>)
      requires opcode < 16
      modifies `conn
      ensures conn == Send(old(conn), opcode, p)
    {
      if |p| < 0x1_0000_0000_0000_0000 {
        conn := conn.(written := conn.written + BuildHeader(opcode, |p|) + p);
      }
    }

    /** The two header bytes have arrived. */
    method ReadMiniHeader(b: seq<byte>, ghost f: Frame)
      requires ValidFrame(f) && b == [FirstByte(f), SecondByte(f)] && Phase(f, 0) && state == MiniHeader
      modifies this
      ensures Phase(f, 2) && conn == old(conn) && (state == Len16 || state == Len64 || state == MaskState)
    {
      hide Swap16, Load16;
      MiniBits(b[0], b[1]);
      miniHeader := Swap16(Load16(b));
      hasMask := miniHeader / 0x80 % 2 == 1;
      if miniHeader % 0x80 == 127 {
        state := Len64;
      } else if miniHeader % 0x80 == 126 {
        state := Len16;
      } else {
        remaining := miniHeader % 0x80;
        state := MaskState;
      }
    }

    /** The bytes of an extended length have arrived. */
    method ReadLength(b: seq<byte>, ghost f: Frame)
      requires ValidFrame(f) && (state == Len16 || state == Len64) && Phase(f, 2) && b == LengthBytes(f)
      modifies this
      ensures state == MaskState && Phase(f, 2 + |LengthBytes(f)|) && conn == old(conn)
    {
      hide Swap16, Swap64, Load16, Load64, Big16, Big64;
      if state == Len16 {
        Read16(|f.payload|);
        remaining := Swap16(Load16(b));
      } else {
        Read64(|f.payload|);
        remaining := Swap64(Load64(b));
      }
      state := MaskState;
    }

    /** The mask has arrived, or there is none. */
    method ReadMask(b: seq<byte>, ghost f: Frame)
      requires ValidFrame(f) && state == MaskState && Phase(f, 2 + |LengthBytes(f)|) && b == MaskBytes(f)
      modifies this
      ensures state == Payload && Phase(f, 2 + |LengthBytes(f)| + |MaskBytes(f)|) && conn == old(conn)
    {
      if hasMask {
        mask := b;
      }
      state := Payload;
    }

    /** Some bytes of the payload have arrived, at least one if any is missing. */
    method ReadPayload(b: seq<byte>, ghost f: Frame, ghost off: nat) returns (ghost done: bool)
      requires ValidFrame(f) && state == Payload && Phase(f, off) && |b| <= remaining
      requires fragment + b == Wire(f)[..|fragment| + |b|]
      modifies this
      ensures done <==> old(remaining) == |b|
      ensures done ==> state == MiniHeader && fragment == [] && |mask| == 4
                       && conn == Handle(old(conn), f.fin, f.opcode, f.payload)
      ensures !done ==> Phase(f, off + |b|) && conn == old(conn) && state == Payload
    {
      hide Handle, Masked, Bits, Number;
      fragment := fragment + b;
      remaining := remaining - |b|;
      done := remaining == 0;
      if remaining == 0 {
        assert fragment == Wire(f);
        if f.mask.Some? {
          WireMasked(f);
          MaskedBack(f.mask.value, f.payload);
        }
        HandleFragment();
        state := MiniHeader;
      }
    }

    /** One read of `do_read` and its completion.  Any number of payload bytes may arrive.  Frame `f`
        stands at `start`, and the reader is at `pos` inside it. */
    method DoRead(stream: seq<byte>, pos: nat, ghost f: Frame, ghost start: nat) returns (pos': nat, ghost done: bool)
      requires ValidFrame(f) && start <= pos && Phase(f, pos - start) && Stands(stream, start, FrameBytes(f))
      modifies this
      ensures pos <= pos' <= start + |FrameBytes(f)|
      ensures done ==> pos' == start + |FrameBytes(f)| && state == MiniHeader && fragment == [] && |mask| == 4
                       && old(state) == Payload && conn == Handle(old(conn), f.fin, f.opcode, f.payload)
      ensures !done ==> Phase(f, pos' - start) && conn == old(conn) && state != MiniHeader
                        && (pos' > pos || (old(state) == MaskState && state == Payload))
    {
      hide Handle, Wire, LengthBytes, MaskBytes, FirstByte, SecondByte, Stands, FrameBytes, Phase, HeaderOf;
      FrameParts(stream, start, f);
      LengthSize(f);
      MaskSize(f);
      PhasePlace(f, pos - start);
      done := false;
      if state == MiniHeader {
        pos' := pos + 2;
        ReadMiniHeader(stream[pos..pos'], f);
      } else if state == Len16 || state == Len64 {
        pos' := pos + if state == Len16 then 2 else 8;
        ReadLength(stream[pos..pos'], f);
      } else if state == MaskState {
        pos' := pos + if hasMask then 4 else 0;
        ReadMask(stream[pos..pos'], f);
      } else {
        var most := if remaining < BUFFER_SIZE then remaining else BUFFER_SIZE;
        var n: nat :| n <= most && (n > 0 || remaining == 0);
        pos' := pos + n;
        PayloadPart(stream, start, f, |fragment|, n);
        done := ReadPayload(stream[pos..pos'], f, pos - start);
      }
    }

    /** Where the reader stands in the frame. */
    lemma PhasePlace(f: Frame, off: nat)
      requires ValidFrame(f) && Phase(f, off)
      ensures state == MiniHeader ==> off == 0
      ensures state == Len16 ==> off == 2 && f.form.Medium?
      ensures state == Len64 ==> off == 2 && f.form.Long?
      ensures state == MaskState ==> off == 2 + |LengthBytes(f)| && hasMask == f.mask.Some?
      ensures state == Payload ==>
                off == 2 + |LengthBytes(f)| + |MaskBytes(f)| + |fragment| && |fragment| + remaining == |f.payload|
                && fragment == Wire(f)[..|fragment|]
    {
    }

    /** Read a stream of frames, however its bytes arrive. */
    method ReadAll(stream: seq<byte>, ghost fs: seq<Frame>)
      requires AllValid(fs) && stream == StreamBytes(fs)
      requires state == MiniHeader && fragment == [] && |mask| == 4
      modifies this
      ensures conn == HandleAll(old(conn), fs)
    {
      hide Handle, FrameBytes, Stands, StreamBytes, HandleAll, AllValid;
      ghost var k, start := 0, 0;
      var pos := 0;
      NoFrames(conn, fs);
      while (pos < |stream| || state != MiniHeader) && !conn.closed
        invariant k <= |fs| && start <= pos <= |stream| && AllValid(fs[..k]) && start == |StreamBytes(fs[..k])|
        invariant conn == HandleAll(old(conn), fs[..k])
        invariant k < |fs| ==> ValidFrame(fs[k]) && Phase(fs[k], pos - start)
        invariant k == |fs| ==> pos == start == |stream| && state == MiniHeader
        invariant state == MiniHeader ==> pos == start && fragment == [] && |mask| == 4
        decreases |stream| - pos, if state == MaskState then 2 else if state == Payload then 1 else 0
      {
        FrameAt(stream, fs, k);
        ghost var done;
        pos, done := DoRead(stream, pos, fs[k], start);
        if done {
          NextFrame(old(conn), fs, k);
          k, start := k + 1, pos;
        }
      }
      if k < |fs| && !conn.closed {
        FrameAt(stream, fs, k);
      }
      AllDone(old(conn), fs, k);
    }
  }

  /** The parts of a frame in the stream. */
  lemma FrameParts(stream: seq<byte>, start: nat, f: Frame)
    requires ValidFrame(f) && Stands(stream, start, FrameBytes(f))
    ensures var l, m, p := 2 + |LengthBytes(f)|, |MaskBytes(f)|, |f.payload|;
            && |FrameBytes(f)| == l + m + p && start + |FrameBytes(f)| <= |stream|
            && stream[start..start + 2] == [FirstByte(f), SecondByte(f)]
            && stream[start + 2..start + l] == LengthBytes(f)
            && stream[start + l..start + l + m] == MaskBytes(f)
            && stream[start + l + m..start + l + m + p] == Wire(f)
  {
    hide LengthBytes, Wire, FirstByte, SecondByte, MaskBytes;
    var x := FrameBytes(f);
    var l, m, p := 2 + |LengthBytes(f)|, |MaskBytes(f)|, |f.payload|;
    SubStream(stream, start, x, 0, 2);
    SubStream(stream, start, x, 2, l);
    SubStream(stream, start, x, l, l + m);
    SubStream(stream, start, x, l + m, l + m + p);
    assert x[0..2] == [FirstByte(f), SecondByte(f)];
    assert x[2..l] == LengthBytes(f);
    assert x[l..l + m] == MaskBytes(f);
    assert x[l + m..l + m + p] == Wire(f);
  }

  lemma SubStream(stream: seq<byte>, start: nat, x: seq<byte>, i: nat, j: nat)
    requires Stands(stream, start, x) && i <= j <= |x|
    ensures start + j <= |stream| && stream[start + i..start + j] == x[i..j]
  {
    Slices(stream, start, |x|, i, j);
  }

  lemma Slices(s: seq<byte>, a: nat, n: nat, i: nat, j: nat)
    requires a + n <= |s| && i <= j <= n
    ensures s[a + i..a + j] == s[a..a + n][i..j]
  {
    var x, y := s[a + i..a + j], s[a..a + n][i..j];
    forall k | 0 <= k < |x| ensures x[k] == y[k] {
      assert x[k] == s[a + i + k];
    }
  }

  lemma LengthSize(f: Frame)
    requires ValidFrame(f)
    ensures |LengthBytes(f)| == match f.form case Short => 0 case Medium => 2 case Long => 8
  {
  }

  lemma MaskSize(f: Frame)
    requires ValidFrame(f)
    ensures |MaskBytes(f)| == if f.mask.Some? then 4 else 0
  {
  }

  lemma PayloadPart(stream: seq<byte>, start: nat, f: Frame, have: nat, n: nat)
    requires ValidFrame(f) && Stands(stream, start, FrameBytes(f)) && have + n <= |f.payload|
    ensures var at := start + 2 + |LengthBytes(f)| + |MaskBytes(f)| + have;
            at + n <= |stream| && Wire(f)[..have] + stream[at..at + n] == Wire(f)[..have + n]
  {
    hide Wire, LengthBytes, FirstByte, SecondByte, Stands, FrameBytes;
    FrameParts(stream, start, f);
    var base := start + 2 + |LengthBytes(f)| + |MaskBytes(f)|;
    Slices(stream, base, |f.payload|, have, have + n);
  }

  lemma NoFrames(c: Conn, fs: seq<Frame>)
    requires AllValid(fs)
    ensures fs[..0] == [] && AllValid(fs[..0]) && StreamBytes([]) == [] && HandleAll(c, []) == c
    ensures fs != [] ==> ValidFrame(fs[0])
    ensures fs == [] ==> |StreamBytes(fs)| == 0
  {
  }

  lemma {:induction false} StreamPrefix(fs: seq<Frame>, k: nat)
    requires AllValid(fs) && k <= |fs|
    ensures AllValid(fs[..k]) && Stands(StreamBytes(fs), 0, StreamBytes(fs[..k]))
    decreases |fs|
  {
    hide FrameBytes;
    if k < |fs| {
      var n := |fs| - 1;
      StreamPrefix(fs[..n], k);
      assert fs[..n][..k] == fs[..k];
      var a, x := StreamBytes(fs[..n]), StreamBytes(fs[..k]);
      assert StreamBytes(fs)[..|x|] == a[..|x|];
    } else {
      assert fs[..k] == fs;
    }
  }

  /** Frame number `k` stands behind the frames before it. */
  lemma FrameAt(stream: seq<byte>, fs: seq<Frame>, k: nat)
    requires AllValid(fs) && stream == StreamBytes(fs) && k < |fs|
    ensures AllValid(fs[..k]) && ValidFrame(fs[k])
    ensures Stands(stream, |StreamBytes(fs[..k])|, FrameBytes(fs[k]))
    ensures |StreamBytes(fs[..k])| + 2 <= |StreamBytes(fs[..k])| + |FrameBytes(fs[k])| <= |stream|
  {
    hide FrameBytes;
    StreamPrefix(fs, k);
    StreamPrefix(fs, k + 1);
    assert fs[..k + 1][..k] == fs[..k];
    var x, y := StreamBytes(fs[..k]), FrameBytes(fs[k]);
    assert StreamBytes(fs[..k + 1]) == x + y;
    Slices(stream, 0, |x + y|, |x|, |x| + |y|);
    FrameSize(fs[k]);
  }

  lemma FrameSize(f: Frame)
    requires ValidFrame(f)
    ensures |FrameBytes(f)| >= 2
  {
  }

  lemma NextFrame(c: Conn, fs: seq<Frame>, k: nat)
    requires AllValid(fs) && k < |fs| && AllValid(fs[..k])
    ensures AllValid(fs[..k + 1]) && |StreamBytes(fs[..k + 1])| == |StreamBytes(fs[..k])| + |FrameBytes(fs[k])|
    ensures var d := HandleAll(c, fs[..k]);
            HandleAll(c, fs[..k + 1]) == if d.closed then d else Handle(d, fs[k].fin, fs[k].opcode, fs[k].payload)
    ensures k + 1 < |fs| ==> ValidFrame(fs[k + 1])
    ensures k + 1 == |fs| ==> |StreamBytes(fs[..k + 1])| == |StreamBytes(fs)|
  {
    hide FrameBytes, Handle;
    assert fs[..k + 1][..k] == fs[..k];
    if k + 1 == |fs| {
      assert fs[..k + 1] == fs;
    }
  }

  lemma {:induction false} AllDone(c: Conn, fs: seq<Frame>, k: nat)
    requires k <= |fs| && (k == |fs| || HandleAll(c, fs[..k]).closed)
    ensures HandleAll(c, fs) == HandleAll(c, fs[..k])
    decreases |fs|
  {
    hide Handle;
    if k < |fs| {
      assert fs[..|fs| - 1][..k] == fs[..k];
      AllDone(c, fs[..|fs| - 1], k);
    } else {
      assert fs[..k] == fs;
    }
  }
}
