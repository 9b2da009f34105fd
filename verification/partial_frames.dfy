/** Frames split across reads.

    run_receiver keeps the undecoded tail of a pass at the start of its
    buffer and shortens the next read to leave room for it, but then reads
    at offset 0 and drains only the new bytes, so the kept tail is
    overwritten. This module shows a frame lost that way, and proves that
    the evidently intended loop (read at buf + head, drain head + r bytes)
    dispatches exactly the events of draining the whole stream at once.
 */
module PartialFrames {
  import opened DeviceEvents
  import opened ReceiverSpec
  import opened Net

  /** A streaming decoder: once a window holds a complete frame, more bytes
      after it do not change what is decoded. */
  ghost predicate Streaming(deser: Deserializer)
  {
    forall w, x :: Decode(deser, w).Complete? ==> Decode(deser, w + x) == Decode(deser, w)
  }

  /** No frame is longer than the buffer: a window of maxSize bytes or more
      is never incomplete. */
  ghost predicate FitsBuffer(deser: Deserializer, maxSize: nat)
  {
    forall w :: |w| >= maxSize ==> Decode(deser, w) != Incomplete
  }

  lemma {:induction false} SizeSumConcat(a: seq<Frame>, b: seq<Frame>)
    ensures SizeSum(a + b) == SizeSum(a) + SizeSum(b)
    decreases |a|
  {
    if a != [] {
      assert (a + b)[1..] == a[1..] + b;
      SizeSumConcat(a[1..], b);
    } else {
      assert a + b == b;
    }
  }

  lemma {:induction false} EventsOfConcat(a: seq<Frame>, b: seq<Frame>)
    ensures EventsOf(a + b) == EventsOf(a) + EventsOf(b)
    decreases |b|
  {
    if b != [] {
      assert (a + b)[..|a + b| - 1] == a + b[..|b| - 1];
      EventsOfConcat(a, b[..|b| - 1]);
    } else {
      assert a + b == a;
    }
  }

  /** Draining u and then, from where that drain stopped, the rest of u
      followed by x, gives the drain of u + x. */
  ghost predicate ExtendsBy(deser: Deserializer, u: seq<byte>, x: seq<byte>)
  {
    var d := DrainWindow(deser, u);
    DrainBounds(deser, u);
    var tail := DrainWindow(deser, u[SizeSum(d.frames)..] + x);
    DrainWindow(deser, u + x) == Drain(d.frames + tail.frames, tail.failed)
  }

  /** The step of DrainExtends for a first frame that fills u. */
  lemma ExtendsWholeFrame(deser: Deserializer, u: seq<byte>, x: seq<byte>, f: Frame)
    requires |x| >= 1 && Decode(deser, u) == Complete(f) && f.size == |u|
    requires Decode(deser, u + x) == Complete(f)
    ensures ExtendsBy(deser, u, x)
  {
    var tail := DrainWindow(deser, x);
    assert DrainWindow(deser, u + x) == Drain([f] + tail.frames, tail.failed) by {
      DrainWindowCons(deser, u + x, f);
      assert (u + x)[f.size..] == x;
    }
    assert DrainWindow(deser, u).frames == [f];
    assert SizeSum([f]) == |u| by {
      assert [f][1..] == [];
    }
    assert u[|u|..] + x == x;
  }

  // Stated apart from ExtendsCons to keep that proof's solver cost down:
  // the frame lists regroup without the definitions around them.
  lemma ConsAlgebra(f: Frame, d: Drain, rest: Drain, tail: Drain, whole: Drain, wholeRest: Drain)
    requires d.frames == [f] + rest.frames
    requires whole == Drain([f] + wholeRest.frames, wholeRest.failed)
    requires wholeRest == Drain(rest.frames + tail.frames, tail.failed)
    ensures whole == Drain(d.frames + tail.frames, tail.failed)
  {
    assert [f] + (rest.frames + tail.frames) == d.frames + tail.frames;
  }

  // Suffixes compose; stated once to keep the solver from re-deriving it
  // by extensionality inside larger proofs.
  lemma ConsSuffix(u: seq<byte>, a: nat, b: nat)
    requires a + b <= |u|
    ensures u[a + b..] == u[a..][b..]
  {
  }

  // A suffix of u + c is the suffix of u followed by c; stated once to
  // keep the solver from re-deriving it by extensionality.
  lemma SuffixAppend(u: seq<byte>, k: nat, c: seq<byte>)
    requires k <= |u|
    ensures (u + c)[k..] == u[k..] + c
  {
  }

  lemma ExtendsCons(deser: Deserializer, u: seq<byte>, x: seq<byte>, f: Frame)
    requires |x| >= 1 && Decode(deser, u) == Complete(f) && f.size < |u|
    requires Decode(deser, u + x) == Complete(f)
    requires ExtendsBy(deser, u[f.size..], x)
    ensures ExtendsBy(deser, u, x)
  {
    var u' := u[f.size..];
    var rest := DrainWindow(deser, u');
    DrainBounds(deser, u');
    var k' := SizeSum(rest.frames);
    var tail := DrainWindow(deser, u'[k'..] + x);
    var d := DrainWindow(deser, u);
    DrainWindowCons(deser, u + x, f);
    SuffixAppend(u, f.size, x);
    DrainWindowCons(deser, u, f);
    ConsAlgebra(f, d, rest, tail, DrainWindow(deser, u + x), DrainWindow(deser, u' + x));
    assert SizeSum(d.frames) == f.size + k' by {
      assert d.frames[1..] == rest.frames;
    }
    ConsSuffix(u, f.size, k');
    assert u[SizeSum(d.frames)..] + x == u'[k'..] + x;
  }

  /** With a streaming decoder the frames already decoded in u stay decoded
      when x arrives, and decoding resumes where the drain of u stopped. */
  lemma {:induction false} DrainExtends(deser: Deserializer, u: seq<byte>, x: seq<byte>)
    requires Streaming(deser) && |x| >= 1 && !DrainWindow(deser, u).failed
    ensures ExtendsBy(deser, u, x)
    decreases |u|
  {
    if Decode(deser, u).Complete? {
      var f := Decode(deser, u).frame;
      assert Decode(deser, u + x) == Complete(f);
      if f.size == |u| {
        ExtendsWholeFrame(deser, u, x, f);
      } else {
        DrainWindowCons(deser, u, f);
        DrainExtends(deser, u[f.size..], x);
        ExtendsCons(deser, u, x, f);
      }
    } else {
      assert DrainWindow(deser, u).frames == [];
      assert u[0..] == u;
    }
  }

  /** The summary the corrected loop keeps: `received` is every byte read so
      far, `frames` the frames dispatched, `pending` the undecoded tail at the
      start of the buffer; the frames are the drain of everything received,
      and the pending bytes are what follows them. */
  ghost predicate Carried(deser: Deserializer, received: seq<byte>, frames: seq<Frame>, pending: seq<byte>)
  {
    SizeSum(frames) <= |received| && received[SizeSum(frames)..] == pending &&
    if received == [] then frames == [] else DrainWindow(deser, received) == Drain(frames, false)
  }

  /** One pass of the corrected loop: the new bytes c are appended to the
      pending ones and that window is drained. The drain of everything
      received is then the old frames followed by that window's drain, and
      unless that drain failed, what it leaves undecoded is carried on. */
  lemma PassExtends(deser: Deserializer, received: seq<byte>, frames: seq<Frame>, pending: seq<byte>, c: seq<byte>)
    requires Streaming(deser) && |c| >= 1 && Carried(deser, received, frames, pending)
    ensures var d := DrainWindow(deser, pending + c);
            SizeSum(d.frames) <= |pending + c| &&
            DrainWindow(deser, received + c) == Drain(frames + d.frames, d.failed) &&
            (!d.failed ==> Carried(deser, received + c, frames + d.frames, (pending + c)[SizeSum(d.frames)..]))
  {
    var d := DrainWindow(deser, pending + c);
    DrainBounds(deser, pending + c);
    SizeSumConcat(frames, d.frames);
    if received == [] {
      assert pending == [] && received + c == pending + c;
    } else {
      DrainExtends(deser, received, c);
    }
    SuffixAppend(received, SizeSum(frames), c);
    ConsSuffix(received + c, SizeSum(frames), SizeSum(d.frames));
  }

  /** The corrected loop never fills its buffer with an undecoded tail: a
      window that fits the buffer and does not fail leaves fewer than
      maxSize bytes undecoded, so the next read asks for at least one. */
  lemma PendingFits(deser: Deserializer, maxSize: nat, w: seq<byte>)
    requires FitsBuffer(deser, maxSize) && |w| <= maxSize && !DrainWindow(deser, w).failed
    ensures |w| - SizeSum(DrainWindow(deser, w).frames) < maxSize
  {
    if !Decode(deser, w).Complete? {
      assert Decode(deser, w) == Incomplete;
    }
  }

  // ---------------------------------------------------------------------
  // A frame split across two reads
  // ---------------------------------------------------------------------

  /** A decoder whose frames are two bytes long, each carrying the clipboard
      text "c". */
  function TwoByteClipboard(w: seq<byte>): (d: Decoded)
    ensures Sound(w, d)
    ensures d.Complete? <==> |w| >= 2
  {
    if |w| < 2 then Incomplete else Complete(Frame(2, Clipboard("c")))
  }

  /** That decoder is streaming, and its frames fit a buffer of two bytes. */
  lemma TwoByteClipboardStreams()
    ensures Streaming(TwoByteClipboard) && FitsBuffer(TwoByteClipboard, 2)
  {
    forall w, x | Decode(TwoByteClipboard, w).Complete?
      ensures Decode(TwoByteClipboard, w + x) == Decode(TwoByteClipboard, w)
    {
      assert |w + x| >= 2;
    }
  }

  /** That decoder never reports an error. */
  lemma {:induction false} TwoByteClipboardNeverFails(w: seq<byte>)
    ensures !DrainWindow(TwoByteClipboard, w).failed
    decreases |w|
  {
    if |w| > 2 {
      TwoByteClipboardNeverFails(w[2..]);
    }
  }

  /** As written, the frame [1, 2] arriving as two one-byte reads is never
      dispatched: both reads respect the request size, neither pass fails,
      yet the passes decode nothing, while draining the same two bytes at
      once yields the clipboard event. */
  lemma SplitFrameIsLost()
    ensures var chunks: seq<seq<byte>> := [[1], [2]];
            ReadsFit(TwoByteClipboard, 2, chunks) && NoneFailed(TwoByteClipboard, chunks) &&
            Flatten(chunks) == [1, 2] &&
            PassEvents(TwoByteClipboard, chunks) == [] &&
            EventsOf(DrainWindow(TwoByteClipboard, [1, 2]).frames) == [Clipboard("c")]
  {
    var chunks: seq<seq<byte>> := [[1], [2]];
    assert chunks[..1] == [[1]] && chunks[..1][..0] == [];
    assert DrainWindow(TwoByteClipboard, [1]) == Drain([], false);
    assert DrainWindow(TwoByteClipboard, [2]) == Drain([], false);
    assert HeadAfter(TwoByteClipboard, chunks[..1]) == 0;
    var d := DrainWindow(TwoByteClipboard, [1, 2]);
    assert d == Drain([Frame(2, Clipboard("c"))], false);
    assert EventsOf(d.frames) == EventsOf([] + [Frame(2, Clipboard("c"))]);
  }

  /** On the stream [1] then [2], the first read of the as-written loop
      returns the first segment. */
  lemma SplitFirstRead()
    ensures PendingAfter(TwoByteClipboard, 2, [Data([1]), Data([2])], [[1]]) == Some([Data([2])])
  {
    var segments := [Data([1]), Data([2])];
    assert segments[1..] == [Data([2])];
    PendingAfterRead(TwoByteClipboard, 2, segments, [], segments, 0, Recv(segments, 2));
    assert [] + [[1]] == [[1]];
  }

  /** The first pass consumes nothing, so the second read asks for two
      bytes again and returns the second segment, using the stream up. */
  lemma SplitSecondRead()
    ensures PendingAfter(TwoByteClipboard, 2, [Data([1]), Data([2])], [[1], [2]]) == Some([])
  {
    var r1: seq<seq<byte>> := [[1]];
    SplitFirstRead();
    assert HeadAfter(TwoByteClipboard, r1) == 0 by {
      assert DrainWindow(TwoByteClipboard, [1]) == Drain([], false);
      assert r1[..0] == [];
    }
    PendingAfterRead(TwoByteClipboard, 2, [Data([1]), Data([2])], r1, [Data([2])], 0, Recv([Data([2])], 2));
    assert r1 + [[2]] == [[1], [2]];
  }

  /** On the stream [1] then [2], the only run of the as-written loop that
      stops (the stream is used up, or a pass failed) reads [1] and then
      [2]. */
  lemma SplitFrameReads(deser: Deserializer, chunks: seq<seq<byte>>)
    requires deser == TwoByteClipboard
    requires var p := PendingAfter(deser, 2, [Data([1]), Data([2])], chunks);
             p.Some? &&
             (StreamBytes(p.value) == [] ||
              (chunks != [] && DrainWindow(deser, chunks[|chunks| - 1]).failed))
    ensures chunks == [[1], [2]]
  {
    SplitRunPrefix(deser, chunks);
    if chunks != [[1], [2]] {
      SplitShortRun(chunks);
      assert false;
    }
  }

  /** Every run of the as-written loop on [1] then [2] is a prefix of
      [[1], [2]]. */
  lemma SplitRunPrefix(deser: Deserializer, chunks: seq<seq<byte>>)
    requires deser == TwoByteClipboard
    requires PendingAfter(deser, 2, [Data([1]), Data([2])], chunks).Some?
    ensures chunks == [] || chunks == [[1]] || chunks == [[1], [2]]
  {
    var r2: seq<seq<byte>> := [[1], [2]];
    SplitSecondRead();
    SplitRunLength(deser, chunks);
    ReadsDeterministic(deser, 2, [Data([1]), Data([2])], chunks, r2);
    assert r2[..1] == [[1]] && r2[..2] == r2;
  }

  /** The as-written loop on [1] then [2] reads at most twice: a third
      read finds the stream used up. */
  lemma SplitRunLength(deser: Deserializer, chunks: seq<seq<byte>>)
    requires deser == TwoByteClipboard
    requires PendingAfter(deser, 2, [Data([1]), Data([2])], chunks).Some?
    ensures |chunks| <= 2
  {
    if |chunks| > 2 {
      var segments := [Data([1]), Data([2])];
      var r2: seq<seq<byte>> := [[1], [2]];
      SplitSecondRead();
      ReadsDeterministic(deser, 2, segments, r2, chunks);
      PendingAfterPrefix(deser, 2, segments, chunks, 3);
      assert false;
    }
  }

  /** Before its second read, the as-written loop on [1] then [2] has
      neither used the stream up nor failed. */
  lemma SplitShortRun(chunks: seq<seq<byte>>)
    requires chunks == [] || chunks == [[1]]
    ensures var p := PendingAfter(TwoByteClipboard, 2, [Data([1]), Data([2])], chunks);
            p.Some? && StreamBytes(p.value) != [] &&
            (chunks != [] ==> !DrainWindow(TwoByteClipboard, chunks[|chunks| - 1]).failed)
  {
    if chunks == [] {
      assert StreamBytes([Data([1]), Data([2])]) != [];
    } else {
      SplitFirstRead();
      TwoByteClipboardNeverFails([1]);
      assert StreamBytes([Data([2])]) != [];
    }
  }
}
