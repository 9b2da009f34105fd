/** The receiver of receiver.c: a single-slot clipboard mailbox filled by a
    worker that reads the control socket and drains device events from its
    buffer.

    The mutex that guards the slot and the worker thread are not modelled:
    the slot's swap and take are each one step here. The SDL event pushed
    after a clipboard update is counted in `notifications`.
 */
module Receiver {
  import opened DeviceEvents
  import opened Net
  import opened ReceiverSpec
  import opened PartialFrames

  class Receiver {
    /** The control socket handle given at init; the bytes arriving on it
        are the `segments` handed to RunReceiver. */
    const controlSocket: nat
    /** The clipboard slot: None is the NULL pointer. */
    var clipboardText: Option<string>
    /** How many EVENT_DEVICE_CLIPBOARD notifications were posted. */
    var notifications: nat
    /** Every event handed to process_event, in order. */
    ghost var dispatched: seq<DeviceEvent>

    /** receiver_init: the slot starts empty. */
    constructor (controlSocket: nat)
      ensures this.controlSocket == controlSocket
      ensures clipboardText == None && notifications == 0 && dispatched == []
    {
      this.controlSocket := controlSocket;
      clipboardText := None;
      notifications := 0;
      dispatched := [];
    }

    /** receiver_destroy, slot part: the string still resident is released. */
    method Destroy()
      modifies this`clipboardText
      ensures clipboardText == None
    {
      clipboardText := None;
    }

    /** process_event: a clipboard event overwrites the slot with its text
        (the previous string is not freed by the source) and posts one
        notification; any other event is ignored. */
    method ProcessEvent(event: DeviceEvent)
      modifies this`clipboardText, this`notifications, this`dispatched
      ensures dispatched == old(dispatched) + [event]
      ensures event.Clipboard? ==> clipboardText == Some(event.text) && notifications == old(notifications) + 1
      ensures !event.Clipboard? ==> clipboardText == old(clipboardText) && notifications == old(notifications)
    {
      dispatched := dispatched + [event];
      match event
      case Clipboard(text) =>
        clipboardText := Some(text);
        notifications := notifications + 1;
      case Other(_) =>
    }

    /** The receiver's state after `events` were handed to process_event in
        order, starting from the log, slot and counter d0, s0 and n0. */
    ghost predicate Delivered(d0: seq<DeviceEvent>, s0: Option<string>, n0: nat, events: seq<DeviceEvent>)
      reads this
    {
      dispatched == d0 + events &&
      clipboardText == SlotAfter(s0, events) &&
      notifications == n0 + ClipboardCount(events)
    }

    /** Dispatching events and then more leaves the receiver as
        dispatching events + more at once. */
    lemma DeliveredConcat(d0: seq<DeviceEvent>, s0: Option<string>, n0: nat, events: seq<DeviceEvent>,
                          d1: seq<DeviceEvent>, s1: Option<string>, n1: nat, more: seq<DeviceEvent>)
      requires d1 == d0 + events && s1 == SlotAfter(s0, events) && n1 == n0 + ClipboardCount(events)
      requires Delivered(d1, s1, n1, more)
      ensures Delivered(d0, s0, n0, events + more)
    {
      Reassociate(d0, events, more);
      SlotAfterConcat(s0, events, more);
      ClipboardCountConcat(events, more);
    }

    /** process_events: drain buf[0..len) frame by frame, dispatching each
        decoded event; returns -1 on a decode error, else the number of
        bytes consumed. */
    method ProcessEvents(deser: Deserializer, buf: array<byte>, len: nat) returns (r: int)
      requires len <= buf.Length
      modifies this`clipboardText, this`notifications, this`dispatched
      ensures r == -1 || 0 <= r <= len
      ensures r == Status(DrainWindow(deser, old(buf[..len])))
      ensures Delivered(old(dispatched), old(clipboardText), old(notifications),
                        EventsOf(DrainWindow(deser, old(buf[..len])).frames))
    {
      ghost var w := buf[..len];
      ghost var frames: seq<Frame> := [];
      var head := 0;
      while true
        invariant 0 <= head <= len && (head < len || frames == [])
        invariant head == SizeSum(frames)
        invariant DecodedInOrder(deser, w, frames)
        invariant Delivered(old(dispatched), old(clipboardText), old(notifications), EventsOf(frames))
        decreases len - head
      {
        assert buf[head..len] == w[head..];
        var d := Decode(deser, buf[head..len]);
        var r := ReturnValue(d);
        ReturnValueRange(deser, buf[head..len]);
        if r == -1 {
          InOrderIsDrain(deser, w, Drain(frames, true));
          return -1;
        }
        if r == 0 {
          InOrderIsDrain(deser, w, Drain(frames, false));
          return head;
        }
        var f := d.frame;
        ProcessEvent(f.event);
        EventsOfAppend(frames, f);
        Reassociate(old(dispatched), EventsOf(frames), [f.event]);
        DispatchOne(old(clipboardText), EventsOf(frames), f.event);
        DecodedInOrderAppend(deser, w, frames, f);
        SizeSumAppend(frames, f);
        head := head + f.size;
        frames := frames + [f];
        if head == len {
          InOrderIsDrain(deser, w, Drain(frames, false));
          return head;
        }
      }
    }

    /** receiver_consume_device_clipboard: take the slot's value and leave
        the slot empty. */
    method ConsumeDeviceClipboard() returns (text: Option<string>)
      modifies this`clipboardText
      ensures text == old(clipboardText)
      ensures clipboardText == None
    {
      text := clipboardText;
      clipboardText := None;
    }

    /** One pass of run_receiver as written: the bytes a read returned
        land at offset 0 of buf, exactly those are drained, and unless the
        drain failed or consumed nothing, what it left undecoded moves to
        the front and becomes the new head. Nothing past the bytes received
        is touched. */
    method ReadAndDrain(deser: Deserializer, buf: array<byte>, head: nat, data: seq<byte>)
      returns (consumed: int, newHead: nat)
      requires |data| <= buf.Length
      modifies buf, this`clipboardText, this`notifications, this`dispatched
      ensures consumed == Status(DrainWindow(deser, data))
      ensures consumed > 0 ==> newHead == |data| - consumed && buf[..newHead] == data[consumed..]
      ensures consumed <= 0 ==> newHead == head && buf[..|data|] == data
      ensures buf[|data|..] == old(buf[|data|..])
      ensures Delivered(old(dispatched), old(clipboardText), old(notifications),
                        EventsOf(DrainWindow(deser, data).frames))
    {
      Receive(buf, data);
      consumed := ProcessEvents(deser, buf, |data|);
      newHead := head;
      if consumed != -1 {
        newHead := ShiftRemaining(buf, |data|, consumed, head);
      }
    }

    /** One pass of the corrected loop: the bytes a read returned land
        after the head pending ones, the whole window is drained, and unless
        the drain failed its undecoded tail moves to the front and becomes
        the new head. */
    method ReadDrainCompact(deser: Deserializer, buf: array<byte>, head: nat, data: seq<byte>)
      returns (consumed: int, newHead: nat)
      requires head + |data| <= buf.Length
      modifies buf, this`clipboardText, this`notifications, this`dispatched
      ensures var window := old(buf[..head]) + data;
              var d := DrainWindow(deser, window);
              consumed == Status(d) &&
              (!d.failed ==> newHead == |window| - SizeSum(d.frames) && buf[..newHead] == window[SizeSum(d.frames)..])
      ensures Delivered(old(dispatched), old(clipboardText), old(notifications),
                        EventsOf(DrainWindow(deser, old(buf[..head]) + data).frames))
    {
      ghost var window := buf[..head] + data;
      ReceiveAt(buf, head, data);
      newHead := head + |data|;
      consumed := ProcessEvents(deser, buf, newHead);
      if consumed > 0 {
        newHead := newHead - consumed;
        MoveDown(buf, consumed, newHead);
      }
    }

    /** run_receiver, as written: each read goes to offset 0 of the buffer
        and only the bytes it returned are drained, so the carried head only
        shortens the next read. The loop ends when a read fails or a drain
        fails, and returns 0 either way. `chunks` are the reads' results. */
    method RunReceiver(deser: Deserializer, maxSize: nat, segments: seq<Segment>)
      returns (status: int, ghost chunks: seq<seq<byte>>)
      requires maxSize >= 1 && WellFormed(segments)
      modifies this`clipboardText, this`notifications, this`dispatched
      ensures status == 0
      ensures Stopped(deser, maxSize, segments, chunks)
      ensures Delivered(old(dispatched), old(clipboardText), old(notifications), PassEvents(deser, chunks))
    {
      var buf := new byte[maxSize];
      var head := 0;
      var input := segments;
      chunks := [];
      while true
        invariant WellFormed(input) && PendingAfter(deser, maxSize, segments, chunks) == Some(input)
        invariant head == HeadAfter(deser, chunks) < maxSize == buf.Length
        invariant NoneFailed(deser, chunks)
        invariant Delivered(old(dispatched), old(clipboardText), old(notifications), PassEvents(deser, chunks))
        decreases |StreamBytes(input)|
      {
        var read := Recv(input, maxSize - head);
        var res := read.0;
        if res.Failed? {
          StoppedAtEnd(deser, maxSize, segments, chunks, input);
          break;
        }
        RunStep(deser, maxSize, segments, chunks, input, head, read);
        ghost var before := chunks;
        ghost var dispatched0, slot0, notified0 := dispatched, clipboardText, notifications;
        var consumed;
        consumed, head := ReadAndDrain(deser, buf, head, res.data);
        DeliveredConcat(old(dispatched), old(clipboardText), old(notifications), PassEvents(deser, before),
                        dispatched0, slot0, notified0, EventsOf(DrainWindow(deser, res.data).frames));
        input := read.1;
        chunks := chunks + [res.data];
        if consumed == -1 {
          StoppedOnError(deser, maxSize, segments, before, res.data, chunks, input);
          break;
        }
      }
      status := 0;
    }

    /** run_receiver as evidently intended: each read lands after the
        pending bytes, the whole window of head + r bytes is drained, and
        what it leaves undecoded moves to the front. Whatever the
        segmentation of the stream, the events dispatched are those of
        draining every byte received at once, and the loop stops only on a
        decode error or once the whole stream was read. */
    method RunReceiverFixed(deser: Deserializer, maxSize: nat, segments: seq<Segment>)
      returns (status: int, ghost received: seq<byte>)
      requires maxSize >= 1 && WellFormed(segments)
      requires Streaming(deser) && FitsBuffer(deser, maxSize)
      modifies this`clipboardText, this`notifications, this`dispatched
      ensures status == 0
      ensures received <= StreamBytes(segments)
      ensures DrainWindow(deser, received).failed || received == StreamBytes(segments)
      ensures Delivered(old(dispatched), old(clipboardText), old(notifications),
                        EventsOf(DrainWindow(deser, received).frames))
    {
      var buf := new byte[maxSize];
      var head: nat := 0;
      var input := segments;
      received := [];
      ghost var frames: seq<Frame> := [];
      while true
        invariant WellFormed(input)
        invariant StreamBytes(segments) == received + StreamBytes(input)
        invariant head < maxSize == buf.Length
        invariant Carried(deser, received, frames, buf[..head])
        invariant Delivered(old(dispatched), old(clipboardText), old(notifications), EventsOf(frames))
        decreases |StreamBytes(input)|
      {
        var (res, rest) := Recv(input, maxSize - head);
        if res.Failed? {
          DrainBounds(deser, received);
          break;
        }
        ghost var pending := buf[..head];
        ghost var d := DrainWindow(deser, pending + res.data);
        ghost var events := EventsOf(frames);
        var consumed;
        consumed, head := ReadDrainCompact(deser, buf, head, res.data);
        PassExtends(deser, received, frames, pending, res.data);
        EventsOfConcat(frames, d.frames);
        Reassociate(old(dispatched), events, EventsOf(d.frames));
        SlotAfterConcat(old(clipboardText), events, EventsOf(d.frames));
        ClipboardCountConcat(events, EventsOf(d.frames));
        Reassociate(received, res.data, StreamBytes(rest));
        input := rest;
        received := received + res.data;
        frames := frames + d.frames;
        if consumed == -1 {
          break;
        }
        PendingFits(deser, maxSize, pending + res.data);
      }
      status := 0;
    }
  }

  /** The clipboard hand-off between the worker and the main loop: two
      clipboard events and an unrelated one arrive before the main loop
      takes the slot; it gets the later text, one notification per
      clipboard event was posted, and a second take finds the slot empty. */
  method ClipboardHandOff(a: string, b: string) returns (first: Option<string>, second: Option<string>, posted: nat)
    ensures first == Some(b) && second == None && posted == 2
  {
    var receiver := new Receiver(0);
    receiver.ProcessEvent(Clipboard(a));
    receiver.ProcessEvent(Clipboard(b));
    receiver.ProcessEvent(Other(0));
    first := receiver.ConsumeDeviceClipboard();
    second := receiver.ConsumeDeviceClipboard();
    posted := receiver.notifications;
  }

  /** The corrected loop on a clipboard frame that arrives as two one-byte
      segments: the update reaches the slot (as written, it is lost; see
      PartialFrames.SplitFrameIsLost). */
  method SplitClipboardDelivered() returns (text: Option<string>)
    ensures text == Some("c")
  {
    var receiver := new Receiver(0);
    var segments := [Data([1]), Data([2])];
    assert StreamBytes(segments) == [1, 2] by {
      assert segments[1..][1..] == [];
    }
    TwoByteClipboardStreams();
    var status, received := receiver.RunReceiverFixed(TwoByteClipboard, 2, segments);
    TwoByteClipboardNeverFails(received);
    assert DrainWindow(TwoByteClipboard, received).frames == [Frame(2, Clipboard("c"))];
    assert EventsOf([Frame(2, Clipboard("c"))]) == [Clipboard("c")] by {
      assert [Frame(2, Clipboard("c"))][..0] == [];
    }
    text := receiver.ConsumeDeviceClipboard();
  }

  /** The as-written loop on the same two segments: it reads [1], then
      [2], decodes nothing in either pass, and stops when the stream is
      used up; the clipboard slot stays empty. */
  method SplitClipboardLost() returns (text: Option<string>)
    ensures text == None
  {
    var receiver := new Receiver(0);
    var segments := [Data([1]), Data([2])];
    var status;
    ghost var chunks;
    status, chunks := receiver.RunReceiver(TwoByteClipboard, 2, segments);
    SplitFrameReads(TwoByteClipboard, chunks);
    SplitFrameIsLost();
    text := receiver.ConsumeDeviceClipboard();
  }

  /** net_recv writing into buf at offset 0. */
  method Receive(buf: array<byte>, data: seq<byte>)
    requires |data| <= buf.Length
    modifies buf
    ensures buf[..|data|] == data
    ensures buf[|data|..] == old(buf[|data|..])
  {
    forall k | 0 <= k < |data| {
      buf[k] := data[k];
    }
  }

  /** net_recv writing into buf after the head pending bytes. */
  method ReceiveAt(buf: array<byte>, head: nat, data: seq<byte>)
    requires head + |data| <= buf.Length
    modifies buf
    ensures buf[..head + |data|] == old(buf[..head]) + data
    ensures buf[head + |data|..] == old(buf[head + |data|..])
  {
    forall k | 0 <= k < |data| {
      buf[head + k] := data[k];
    }
    assert buf[..head + |data|] == old(buf[..head]) + data;
  }

  /** The compaction step of run_receiver: when `consumed` bytes were
      decoded, move buf[consumed..r) down to offset 0 and make the head the
      number of bytes moved; when nothing was decoded, change nothing. */
  method ShiftRemaining(buf: array<byte>, r: nat, consumed: nat, head: nat) returns (newHead: nat)
    requires consumed <= r <= buf.Length
    modifies buf
    ensures consumed > 0 ==> newHead == r - consumed
    ensures consumed > 0 ==> buf[..r - consumed] == old(buf[consumed..r])
    ensures consumed > 0 ==> buf[r - consumed..] == old(buf[r - consumed..])
    ensures consumed == 0 ==> newHead == head && buf[..] == old(buf[..])
  {
    newHead := head;
    if consumed > 0 {
      MoveDown(buf, consumed, r - consumed);
      newHead := r - consumed;
    }
  }

  /** memmove(buf, &buf[from], count) with from > 0: a forward copy, which
      never reads a byte it has already overwritten. */
  method MoveDown(buf: array<byte>, from: nat, count: nat)
    requires 0 < from && from + count <= buf.Length
    modifies buf
    ensures buf[..count] == old(buf[from..from + count])
    ensures buf[count..] == old(buf[count..])
  {
    var i := 0;
    while i < count
      invariant 0 <= i <= count
      invariant forall k :: 0 <= k < i ==> buf[k] == old(buf[from + k])
      invariant forall k :: i <= k < buf.Length ==> buf[k] == old(buf[k])
    {
      buf[i] := buf[from + i];
      i := i + 1;
    }
  }
}
