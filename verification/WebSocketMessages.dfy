/** Messages put together again from fragments, whatever control frames come between them. */
module WebSocketMessages {
  import opened Basics
  import opened WebSocketFrame
  import opened WebSocketConnection

  /** A fragment of a message, with the control frames that travel before it. */
  datatype Part = Part(controls: seq<Frame>, data: Frame)

  datatype Message = Message(binary: bool, parts: seq<Part>)

  /** Frames that are neither data nor close: ping, pong and the reserved opcodes. */
  predicate Controls(fs: seq<Frame>) {
    forall i :: 0 <= i < |fs| ==> fs[i].opcode >= 3 && fs[i].opcode != 8
  }

  /** Section 5.4 of RFC 6455: the first fragment carries the type, the others are continuations,
      and only the last has the FIN bit. */
  predicate Fragmented(m: Message) {
    && |m.parts| > 0
    && forall i :: 0 <= i < |m.parts| ==>
         && Controls(m.parts[i].controls)
         && m.parts[i].data.opcode == (if i > 0 then 0 else if m.binary then 2 else 1)
         && (m.parts[i].data.fin <==> i == |m.parts| - 1)
  }

  /** The frames of the first `k` parts. */
  function FramesTo(m: Message, k: nat): seq<Frame>
    requires k <= |m.parts|
  {
    if k == 0 then [] else FramesTo(m, k - 1) + m.parts[k - 1].controls + [m.parts[k - 1].data]
  }

  function TextTo(m: Message, k: nat): seq<byte>
    requires k <= |m.parts|
  {
    if k == 0 then [] else TextTo(m, k - 1) + m.parts[k - 1].data.payload
  }

  /** The frames of messages, one after the other. */
  function Frames(ms: seq<Message>): seq<Frame> {
    if ms == [] then [] else Frames(ms[..|ms| - 1]) + FramesTo(ms[|ms| - 1], |ms[|ms| - 1].parts|)
  }

  function Texts(ms: seq<Message>): seq<(seq<byte>, bool)> {
    seq(|ms|, i requires 0 <= i < |ms| => (TextTo(ms[i], |ms[i].parts|), ms[i].binary))
  }

  predicate AllFragmented(ms: seq<Message>) {
    forall i :: 0 <= i < |ms| ==> Fragmented(ms[i])
  }

  /** The answer to a ping: a pong with the same payload. */
  function Pong(f: Frame): seq<byte> {
    if f.opcode == 9 && |f.payload| < 0x1_0000_0000_0000_0000 then BuildHeader(10, |f.payload|) + f.payload else []
  }

  /** The answers to the pings among some frames. */
  function Pongs(fs: seq<Frame>): seq<byte> {
    if fs == [] then [] else Pongs(fs[..|fs| - 1]) + Pong(fs[|fs| - 1])
  }

  lemma {:induction false} HandleAppend(c: Conn, a: seq<Frame>, b: seq<Frame>)
    ensures HandleAll(c, a + b) == HandleAll(HandleAll(c, a), b)
    decreases |b|
  {
    hide Handle;
    if b == [] {
      assert a + b == a;
    } else {
      assert (a + b)[..|a + b| - 1] == a + b[..|b| - 1];
      HandleAppend(c, a, b[..|b| - 1]);
    }
  }

  lemma NoPongs()
    ensures Pongs([]) == []
  {
  }

  lemma PongsLast(fs: seq<Frame>)
    requires fs != []
    ensures Pongs(fs) == Pongs(fs[..|fs| - 1]) + Pong(fs[|fs| - 1])
  {
  }

  lemma {:induction false} PongsAppend(a: seq<Frame>, b: seq<Frame>)
    ensures Pongs(a + b) == Pongs(a) + Pongs(b)
    decreases |b|
  {
    hide Pong, Pongs;
    if b == [] {
      assert a + b == a;
      NoPongs();
    } else {
      var init := b[..|b| - 1];
      assert (a + b)[..|a + b| - 1] == a + init;
      PongsAppend(a, init);
      PongsLast(a + b);
      PongsLast(b);
      assert Pongs(a) + Pongs(init) + Pong(b[|b| - 1]) == Pongs(a) + (Pongs(init) + Pong(b[|b| - 1]));
    }
  }

  /** The connection is `e`, except that a pong may have come. */
  predicate Same(d: Conn, e: Conn) {
    d == e.(pongReceived := d.pongReceived)
  }

  lemma ControlHandled(c: Conn, f: Frame)
    requires f.opcode >= 3 && f.opcode != 8
    ensures Same(Handle(c, f.fin, f.opcode, f.payload), c.(written := c.written + Pong(f)))
  {
    hide BuildHeader;
    if f.opcode == 9 {
      SentTogether(c, f.payload);
    } else {
      assert c.written + [] == c.written;
    }
  }

  lemma SentTogether(c: Conn, p: seq<byte>)
    ensures Send(c, 10, p) ==
            if |p| < 0x1_0000_0000_0000_0000 then c.(written := c.written + (BuildHeader(10, |p|) + p)) else c
  {
    hide BuildHeader;
  }

  /** Control frames leave the message under construction alone and are answered. */
  lemma {:induction false} ControlsHandled(c: Conn, fs: seq<Frame>)
    requires !c.closed && Controls(fs)
    ensures Same(HandleAll(c, fs), c.(written := c.written + Pongs(fs)))
  {
    hide Handle, Pong, Pongs;
    if fs == [] {
      NoPongs();
      assert c.written + [] == c.written;
    } else {
      var k := |fs| - 1;
      ControlsHandled(c, fs[..k]);
      ControlHandled(HandleAll(c, fs[..k]), fs[k]);
      PongsLast(fs);
      assert c.written + Pongs(fs[..k]) + Pong(fs[k]) == c.written + (Pongs(fs[..k]) + Pong(fs[k]));
    }
  }

  lemma OneHandled(c: Conn, f: Frame)
    ensures HandleAll(c, [f]) == if c.closed then c else Handle(c, f.fin, f.opcode, f.payload)
    ensures f.opcode != 9 ==> Pongs([f]) == []
  {
    assert [f][..0] == [];
    assert HandleAll(c, []) == c;
  }

  /** While a message arrives its fragments are collected, in order. */
  lemma {:induction false} PartsHandled(c: Conn, m: Message, k: nat)
    requires !c.closed && c.message == [] && Fragmented(m) && k < |m.parts|
    ensures Same(HandleAll(c, FramesTo(m, k)),
                 c.(message := TextTo(m, k), isBinary := if k == 0 then c.isBinary else m.binary,
                    written := c.written + Pongs(FramesTo(m, k))))
  {
    if k == 0 {
      assert c.written + [] == c.written;
    } else {
      PartsHandled(c, m, k - 1);
      PartHandled(c, m, k - 1);
    }
  }

  /** The next fragment: appended, and handed over together with the fragments before it if it is the last. */
  lemma PartHandled(c: Conn, m: Message, k: nat)
    requires !c.closed && Fragmented(m) && k < |m.parts|
    requires Same(HandleAll(c, FramesTo(m, k)),
                  c.(message := TextTo(m, k), isBinary := if k == 0 then c.isBinary else m.binary,
                     written := c.written + Pongs(FramesTo(m, k))))
    ensures var e := c.(isBinary := m.binary, written := c.written + Pongs(FramesTo(m, k + 1)));
            Same(HandleAll(c, FramesTo(m, k + 1)),
                 if k + 1 < |m.parts| then e.(message := TextTo(m, k + 1))
                 else e.(message := [], delivered := c.delivered + [(TextTo(m, k + 1), m.binary)]))
  {
    hide Controls, Pongs, HandleAll, BuildHeader, Handle, FramesTo;
    var p := m.parts[k];
    var a := FramesTo(m, k);
    FramesNext(m, k);
    HandleAppend(c, a, p.controls + [p.data]);
    HandleAppend(HandleAll(c, a), p.controls, [p.data]);
    ControlsHandled(HandleAll(c, a), p.controls);
    OneHandled(HandleAll(HandleAll(c, a), p.controls), p.data);
    DataHandled(HandleAll(HandleAll(c, a), p.controls), p.data);
    PongsAppend(a, p.controls + [p.data]);
    PongsAppend(p.controls, [p.data]);
    assert c.written + Pongs(a) + Pongs(p.controls) == c.written + (Pongs(a) + (Pongs(p.controls) + []));
  }

  lemma FramesNext(m: Message, k: nat)
    requires k < |m.parts|
    ensures FramesTo(m, k + 1) == FramesTo(m, k) + (m.parts[k].controls + [m.parts[k].data])
  {
  }

  lemma DataHandled(c: Conn, f: Frame)
    requires f.opcode < 3
    ensures var text, binary := c.message + f.payload, if f.opcode == 0 then c.isBinary else f.opcode == 2;
            Handle(c, f.fin, f.opcode, f.payload) ==
            if f.fin then c.(message := [], isBinary := binary, delivered := c.delivered + [(text, binary)])
            else c.(message := text, isBinary := binary)
  {
  }

  lemma MessageHandled(c: Conn, m: Message)
    requires !c.closed && c.message == [] && Fragmented(m)
    ensures Same(HandleAll(c, FramesTo(m, |m.parts|)),
                 c.(isBinary := m.binary, delivered := c.delivered + [(TextTo(m, |m.parts|), m.binary)],
                    written := c.written + Pongs(FramesTo(m, |m.parts|))))
  {
    hide HandleAll, Pongs, FramesTo, TextTo, Same;
    PartsHandled(c, m, |m.parts| - 1);
    PartHandled(c, m, |m.parts| - 1);
  }

  /** Every message is handed over whole, once, in order and with the right type, whatever its
      fragmentation and whatever control frames travel in between. */
  lemma {:induction false} MessagesHandled(c: Conn, ms: seq<Message>)
    requires !c.closed && c.message == [] && AllFragmented(ms)
    ensures var d := HandleAll(c, Frames(ms));
            Same(d, c.(isBinary := d.isBinary, delivered := c.delivered + Texts(ms),
                       written := c.written + Pongs(Frames(ms))))
  {
    hide HandleAll, Fragmented, Pongs, FramesTo, TextTo;
    if ms == [] {
      NothingHandled(c);
      assert c.written + [] == c.written;
    } else {
      var n := |ms| - 1;
      var m := ms[n];
      MessagesHandled(c, ms[..n]);
      var d := HandleAll(c, Frames(ms[..n]));
      MessageHandled(d, m);
      HandleAppend(c, Frames(ms[..n]), FramesTo(m, |m.parts|));
      PongsAppend(Frames(ms[..n]), FramesTo(m, |m.parts|));
      assert Texts(ms) == Texts(ms[..n]) + [(TextTo(m, |m.parts|), m.binary)];
    }
  }

  lemma NothingHandled(c: Conn)
    ensures HandleAll(c, []) == c && Pongs([]) == []
  {
  }

  // ---------------------------------------------------------------- whole streams

  /** What a peer may send: messages, the first fragments of a message that is not finished, control
      frames, and a close at the end. */
  datatype Traffic = Traffic(messages: seq<Message>, last: Option<Message>, begun: nat, controls: seq<Frame>,
                             close: Option<Frame>)

  predicate ValidTraffic(t: Traffic) {
    && AllFragmented(t.messages) && Controls(t.controls)
    && (if t.last.Some? then Fragmented(t.last.value) && t.begun < |t.last.value.parts| else t.begun == 0)
    && (t.close.Some? ==> t.close.value.opcode == 8)
  }

  function Begun(t: Traffic): seq<Frame>
    requires ValidTraffic(t)
  {
    if t.last.Some? then FramesTo(t.last.value, t.begun) else []
  }

  function BeforeClose(t: Traffic): seq<Frame>
    requires ValidTraffic(t)
  {
    Frames(t.messages) + Begun(t) + t.controls
  }

  function AllFrames(t: Traffic): seq<Frame>
    requires ValidTraffic(t)
  {
    BeforeClose(t) + if t.close.Some? then [t.close.value] else []
  }

  /** The text of the unfinished message. */
  function Pending(t: Traffic): seq<byte>
    requires ValidTraffic(t)
  {
    if t.last.Some? then TextTo(t.last.value, t.begun) else []
  }

  /** A close is answered with its own payload, unless the connection is being closed from this side;
      the close handler is told once. */
  function Closed(c: Conn, p: seq<byte>): Conn {
    var d := c.(receivedClose := true, closeHandled := true,
                closeNotices := if c.closeHandled then c.closeNotices else c.closeNotices + [p]);
    if c.sentClose then d.(closed := true)
    else d.(sentClose := true, written := c.written +
              if |p| < 0x1_0000_0000_0000_0000 then BuildHeader(8, |p|) + p else [])
  }

  lemma CloseHandled(c: Conn, f: Frame)
    requires f.opcode == 8
    ensures Handle(c, f.fin, f.opcode, f.payload) == Closed(c, f.payload)
  {
    hide BuildHeader;
    assert c.written + [] == c.written;
    assert |f.payload| < 0x1_0000_0000_0000_0000 ==>
             c.written + BuildHeader(8, |f.payload|) + f.payload ==
                 c.written + (BuildHeader(8, |f.payload|) + f.payload);
  }

  lemma BegunHandled(c: Conn, t: Traffic)
    requires !c.closed && c.message == [] && ValidTraffic(t)
    ensures var d := HandleAll(c, Begun(t));
            Same(d, c.(message := Pending(t), isBinary := d.isBinary, written := c.written + Pongs(Begun(t))))
  {
    if t.last.Some? {
      PartsHandled(c, t.last.value, t.begun);
    } else {
      NothingHandled(c);
      assert c.written + [] == c.written;
    }
  }

  lemma BeforeCloseHandled(c: Conn, t: Traffic)
    requires !c.closed && c.message == [] && ValidTraffic(t)
    ensures var d := HandleAll(c, BeforeClose(t));
            Same(d, c.(message := Pending(t), isBinary := d.isBinary, delivered := c.delivered + Texts(t.messages),
                       written := c.written + Pongs(BeforeClose(t))))
  {
    hide HandleAll, Pongs, Frames, Texts, Begun, Pending, Controls, AllFragmented;
    var a, b := Frames(t.messages), Begun(t);
    MessagesHandled(c, t.messages);
    BegunHandled(HandleAll(c, a), t);
    HandleAppend(c, a, b);
    ControlsHandled(HandleAll(c, a + b), t.controls);
    HandleAppend(c, a + b, t.controls);
    PongsAppend(a, b);
    PongsAppend(a + b, t.controls);
    assert c.written + Pongs(a) + Pongs(b) + Pongs(t.controls) == c.written + (Pongs(a) + Pongs(b) + Pongs(t.controls));
  }

  /** A whole stream: the finished messages are handed over, the unfinished one is kept, every ping is
      answered, and a close at the end is answered or ends the connection. */
  lemma TrafficHandled(c: Conn, t: Traffic)
    requires !c.closed && c.message == [] && ValidTraffic(t)
    ensures var d := HandleAll(c, AllFrames(t));
            var e := c.(message := Pending(t), isBinary := d.isBinary, delivered := c.delivered + Texts(t.messages),
                        written := c.written + Pongs(BeforeClose(t)));
            Same(d, if t.close.Some? then Closed(e, t.close.value.payload) else e)
  {
    hide HandleAll, Pongs, BeforeClose, Texts, Pending, Controls, AllFragmented, BuildHeader;
    BeforeCloseHandled(c, t);
    if t.close.Some? {
      var b := HandleAll(c, BeforeClose(t));
      HandleAppend(c, BeforeClose(t), [t.close.value]);
      OneHandled(b, t.close.value);
      CloseHandled(b, t.close.value);
    } else {
      assert AllFrames(t) == BeforeClose(t);
    }
  }

  /** A new connection that is sent any messages, fragmented and masked anyhow, with any control frames
      between and behind them, perhaps an unfinished message and a close, in reads of any size, hands
      over exactly the finished messages, answers every ping and the close, and tells the close
      handler. */
  method Receive(stream: seq<byte>, ghost t: Traffic)
    returns (delivered: seq<(seq<byte>, bool)>, written: seq<byte>, notices: seq<seq<byte>>)
    requires ValidTraffic(t) && AllValid(AllFrames(t)) && stream == StreamBytes(AllFrames(t))
    ensures delivered == Texts(t.messages)
    ensures t.close.None? ==> written == Pongs(BeforeClose(t)) && notices == []
    ensures t.close.Some? ==>
              var p := t.close.value.payload;
              |p| < 0x1_0000_0000_0000_0000 && written == Pongs(BeforeClose(t)) + (BuildHeader(8, |p|) + p)
                  && notices == [p]
  {
    hide AllFrames, BeforeClose, Pongs, Texts, AllValid, StreamBytes, HandleAll, BuildHeader;
    var connection := new Connection();
    TrafficHandled(connection.conn, t);
    connection.ReadAll(stream, AllFrames(t));
    CloseValid(t);
    delivered, written := connection.conn.delivered, connection.conn.written;
    notices := connection.conn.closeNotices;
  }

  lemma CloseValid(t: Traffic)
    requires ValidTraffic(t) && AllValid(AllFrames(t))
    ensures t.close.Some? ==> |t.close.value.payload| < 0x1_0000_0000_0000_0000
  {
    if t.close.Some? {
      var fs := AllFrames(t);
      assert fs[|fs| - 1] == t.close.value;
    }
  }

  // ---------------------------------------------------------------- server to reader

  /** The bytes of messages sent with `send_text` and `send_binary`. */
  function Sent(ms: seq<(seq<byte>, bool)>): seq<byte> {
    if ms == [] then []
    else
      var (p, binary) := ms[|ms| - 1];
      Sent(ms[..|ms| - 1]) +
      if |p| < 0x1_0000_0000_0000_0000 then BuildHeader(if binary then 2 else 1, |p|) + p else []
  }

  /** The same messages as one final, unmasked frame each. */
  function Whole(ms: seq<(seq<byte>, bool)>): seq<Message> {
    seq(|ms|, i requires 0 <= i < |ms| => Message(ms[i].1, [Part([], ServerFrame(if ms[i].1 then 2 else 1, ms[i].0))]))
  }

  predicate Sizes(ms: seq<(seq<byte>, bool)>) {
    forall i :: 0 <= i < |ms| ==> |ms[i].0| < 0x1_0000_0000_0000_0000
  }

  lemma WholeFrames(m: Message)
    requires |m.parts| == 1 && m.parts[0].controls == []
    ensures FramesTo(m, 1) == [m.parts[0].data] && TextTo(m, 1) == m.parts[0].data.payload
  {
    assert FramesTo(m, 0) == [] && TextTo(m, 0) == [];
  }

  /** One message sent as one frame. */
  lemma OneFrame(p: seq<byte>, binary: bool)
    requires |p| < 0x1_0000_0000_0000_0000
    ensures var opcode := if binary then 2 else 1;
            var m := Message(binary, [Part([], ServerFrame(opcode, p))]);
            && Fragmented(m) && FramesTo(m, 1) == [ServerFrame(opcode, p)] && TextTo(m, 1) == p
            && ValidFrame(ServerFrame(opcode, p)) && FrameBytes(ServerFrame(opcode, p)) == BuildHeader(opcode, |p|) + p
  {
    hide BuildHeader, FrameBytes, ServerFrame, FramesTo, TextTo;
    var opcode := if binary then 2 else 1;
    ServerPayload(opcode, p);
    HeaderMeans(opcode, p);
    WholeFrames(Message(binary, [Part([], ServerFrame(opcode, p))]));
  }

  lemma {:induction false} SentFrames(ms: seq<(seq<byte>, bool)>)
    requires Sizes(ms)
    ensures AllFragmented(Whole(ms)) && AllValid(Frames(Whole(ms))) && StreamBytes(Frames(Whole(ms))) == Sent(ms)
    ensures Texts(Whole(ms)) == ms
  {
    hide BuildHeader, FrameBytes, ServerFrame, FramesTo, TextTo, Fragmented, ValidFrame;
    if ms != [] {
      var n := |ms| - 1;
      var ws := Whole(ms);
      SentFrames(ms[..n]);
      assert ws[..n] == Whole(ms[..n]);
      OneFrame(ms[n].0, ms[n].1);
      var fs, f := Frames(ws[..n]), ServerFrame(if ms[n].1 then 2 else 1, ms[n].0);
      assert Frames(ws) == fs + [f] && Frames(ws)[..|fs|] == fs;
      assert Texts(ws) == Texts(ws[..n]) + [ms[n]];
    }
  }

  lemma ServerPayload(opcode: nat, p: seq<byte>)
    ensures ServerFrame(opcode, p).payload == p && ServerFrame(opcode, p).opcode == opcode && ServerFrame(opcode, p).fin
  {
  }

  /** What one side sends the other side receives. */
  method Exchange(ms: seq<(seq<byte>, bool)>) returns (delivered: seq<(seq<byte>, bool)>)
    requires Sizes(ms)
    ensures delivered == ms
  {
    hide Sent, Whole, AllFragmented, Texts, Frames, BuildHeader, StreamBytes, AllValid;
    var sender := new Connection();
    var i := 0;
    NothingSent();
    assert ms[..0] == [];
    while i < |ms|
      invariant i <= |ms| && sender.conn.written == Sent(ms[..i])
    {
      sender.Write(if ms[i].1 then 2 else 1, ms[i].0);
      SentSnoc(ms, i);
      i := i + 1;
    }
    assert ms[..i] == ms;
    SentFrames(ms);
    ghost var t := Traffic(Whole(ms), None, 0, [], None);
    assert AllFrames(t) == Frames(Whole(ms));
    var written, notices;
    delivered, written, notices := Receive(sender.conn.written, t);
  }

  lemma NothingSent()
    ensures Sent([]) == []
  {
  }

  lemma SentSnoc(ms: seq<(seq<byte>, bool)>, i: nat)
    requires i < |ms| && Sizes(ms)
    ensures Sent(ms[..i + 1]) == Sent(ms[..i]) + BuildHeader(if ms[i].1 then 2 else 1, |ms[i].0|) + ms[i].0
  {
    hide BuildHeader;
    assert ms[..i + 1][..i] == ms[..i];
  }
}
