/** A connection as the handler sees it: requests written by a client, cut into reads anyhow. */
module HttpConnection {
  import opened HttpControl
  import opened HttpMessage
  import opened HttpRequests
  import opened HttpExecute

  /** However the bytes of a sequence of well-formed requests are cut into reads, exactly these
      requests reach the handler, in order. */
  method Receive(buffers: seq<string>, ghost ss: seq<Sent>) returns (handled: seq<Request>)
    requires AllWellFormed(ss) && Concat(buffers) == StreamText(ss)
    requires forall i :: 0 <= i < |buffers| ==> buffers[i] != "" && |buffers[i]| < 0x8000_0000
    ensures handled == AllMeant(ss)
  {
    hide Run, AllWellFormed, StreamText, AllMeant;
    var parser := new HttpParser();
    StreamRun(ss);
    var ok := parser.FeedAll(buffers);
    handled := parser.delivered;
  }
}
