/** The interface receiver.c uses from the device-event decoder.

    The decoder itself (device_event_deserialize) lives in a file that is not
    part of this model. Only its calling contract is kept: given the bytes
    buf[head..len) it either fails (-1), asks for more bytes (0), or decodes one
    event from a prefix of r bytes, 1 <= r <= len - head.
 */
module DeviceEvents {

  newtype byte = x: int | 0 <= x < 0x100

  /** A decoded device event. Only the clipboard variant is acted upon by
      the receiver; Other stands for every other event type, which the
      receiver's dispatch ignores. */
  datatype DeviceEvent = Clipboard(text: string) | Other(kind: nat)

  /** One complete frame: how many bytes it occupied and the event it held. */
  datatype Frame = Frame(size: nat, event: DeviceEvent)

  /** The three outcomes of one decode attempt: -1, 0, or a positive size. */
  datatype Decoded = Invalid | Incomplete | Complete(frame: Frame)

  /** The value device_event_deserialize returns for an outcome. */
  function ReturnValue(d: Decoded): int
  {
    match d
    case Invalid => -1
    case Incomplete => 0
    case Complete(f) => f.size
  }

  /** The decoder's contract on one window: a complete frame never claims
      zero bytes nor more bytes than the window holds. */
  ghost predicate Sound(window: seq<byte>, d: Decoded)
  {
    d.Complete? ==> 1 <= d.frame.size <= |window|
  }

  /** Any decoder that keeps the contract on every window. */
  type Deserializer = f: seq<byte> -> Decoded | forall w :: Sound(w, f(w))
    witness (w: seq<byte>) => Incomplete

  /** One call of the decoder on a window. */
  function Decode(deser: Deserializer, window: seq<byte>): (d: Decoded)
    ensures Sound(window, d)
  {
    deser(window)
  }

  /** The return value of a sound decoder is -1, 0 or within 1..|window|. */
  lemma ReturnValueRange(deser: Deserializer, window: seq<byte>)
    ensures var r := ReturnValue(Decode(deser, window));
            r == -1 || r == 0 || 1 <= r <= |window|
    ensures ReturnValue(Decode(deser, window)) > 0 <==> Decode(deser, window).Complete?
  {
  }
}
