/** The control socket as the receiver sees it through net_recv.

    What the peer sends is a sequence of segments: data that arrives
    together, or Closed, the point from which every read returns -1.
    One receive returns at most the requested number of bytes from the
    first pending segment; whatever does not fit stays pending. Which
    segmentation the network produces is the caller's choice of `segments`,
    so every chunking of the byte stream is covered.
 */
module Net {
  import opened DeviceEvents

  datatype Segment = Data(bytes: seq<byte>) | Closed

  /** The outcome of one net_recv: some bytes, or -1. */
  datatype RecvResult = Received(data: seq<byte>) | Failed

  /** net_recv never reports zero bytes (the receiver asserts this): every
      data segment carries at least one byte. */
  ghost predicate WellFormed(segments: seq<Segment>)
  {
    forall k :: 0 <= k < |segments| && segments[k].Data? ==> |segments[k].bytes| > 0
  }

  /** The bytes that can still be read: every data segment up to the first
      Closed. */
  function StreamBytes(segments: seq<Segment>): seq<byte>
  {
    if segments == [] || segments[0].Closed? then []
    else segments[0].bytes + StreamBytes(segments[1..])
  }

  /** One net_recv(socket, buf, max): returns what was read and the segments
      still pending. */
  function Recv(segments: seq<Segment>, max: nat): (res: (RecvResult, seq<Segment>))
    requires WellFormed(segments) && max >= 1
    ensures WellFormed(res.1)
    ensures res.0.Failed? <==> StreamBytes(segments) == []
    ensures res.0.Failed? ==> res.1 == segments
    ensures res.0.Received? ==>
              1 <= |res.0.data| <= max &&
              StreamBytes(segments) == res.0.data + StreamBytes(res.1)
  {
    if segments == [] || segments[0].Closed? then (Failed, segments)
    else
      var b := segments[0].bytes;
      assert |b| > 0;
      if |b| <= max then (Received(b), segments[1..])
      else
        var rest := [Data(b[max..])] + segments[1..];
        assert rest[1..] == segments[1..];
        assert b == b[..max] + b[max..];
        (Received(b[..max]), rest)
  }
}
