/** The host side of the layer protocol (src/keyboard.rs). */
module Keyboard {
  import opened Prelude
  import opened Layers
  import opened QmkFirmware

  /** `KeyboardError`. `NotFound` belongs to device discovery, which is not modelled. */
  datatype KeyboardError = HidError | InvalidLayer(code: byte) | NotFound

  type KeyboardResult = Result<(), KeyboardError>

  /** What the HID library does with one exchange: the report and its answer both get
      through, the write fails, or the write gets through and the read fails. */
  datatype Transfer = Delivered | WriteFailed | ReadFailed

  /** The report `set_layer` writes: report ID 0, then the layer's discriminant. */
  function Frame(layer: Layer): (f: seq<byte>)
    ensures |f| == 2
    ensures f[0] == 0 && f[1] as nat == Ordinal(layer)
  {
    [0, Ordinal(layer) as byte]
  }

  /** What reaches the firmware of a written report: the transport consumes the
      report ID. */
  function Payload(frame: seq<byte>): (data: seq<byte>)
    requires |frame| > 0
    ensures |data| == |frame| - 1
  {
    frame[1..]
  }

  /** `Keyboard::code_to_result`: status 0 is success, status 1 a rejected layer. The
      source treats every other status as unreachable. */
  function CodeToResult(code: byte): (r: KeyboardResult)
    requires code == 0 || code == 1
    ensures r.Ok? <==> code == 0
    ensures r.Err? ==> r.error == InvalidLayer(code)
  {
    if code == 0 then Ok(()) else Err(InvalidLayer(code))
  }

  /** The firmware's reply codes decode to the host's outcomes: `OK` to success,
      `INVALID_INDEX` to `InvalidLayer(1)`. */
  lemma ReplyDecodes(layers: nat, data: seq<byte>, length: byte)
    requires length as int <= |data|
    ensures CodeToResult(ReplyCode(layers, data, length))
         == if Accepts(layers, data, length) then Ok(()) else Err(InvalidLayer(INVALID_INDEX))
  {
  }

  /** Encoding a layer, stripping the report ID, validating on the keyboard and decoding
      the reply gives success exactly when the keyboard has that layer, and then the
      keyboard's layer is the requested one. */
  lemma LayerRoundTrip(layers: nat, layer: Layer)
    ensures var data := Payload(Frame(layer));
      && (Accepts(layers, data, 1) <==> Ordinal(layer) < layers)
      && (Accepts(layers, data, 1) ==> data[0] as nat == Ordinal(layer))
      && CodeToResult(ReplyCode(layers, data, 1))
         == if Ordinal(layer) < layers then Ok(()) else Err(InvalidLayer(INVALID_INDEX))
  {
  }

  /** What `set_layer` returns on a keyboard with `layers` layers. */
  function SetLayerResult(layers: nat, layer: Layer, t: Transfer): (r: KeyboardResult)
    ensures r.Ok? <==> t.Delivered? && Ordinal(layer) < layers
    ensures r.Err? && !t.Delivered? ==> r.error == HidError
    ensures r.Err? && t.Delivered? ==> r.error == InvalidLayer(INVALID_INDEX)
  {
    match t
    case WriteFailed => Err(HidError)
    case ReadFailed => Err(HidError)
    case Delivered => if Ordinal(layer) < layers then Ok(()) else Err(InvalidLayer(INVALID_INDEX))
  }

  /** A connection to the keyboard. `device` is the firmware behind the HID device;
      `sent` records every report the HID library accepted, in order. */
  class Keyboard {
    const device: Firmware
    var sent: seq<seq<byte>>

    ghost predicate Valid()
      reads this, device
    {
      device.Valid()
    }

    constructor (device: Firmware)
      requires device.Valid()
      ensures Valid()
      ensures this.device == device && sent == []
    {
      this.device := device;
      sent := [];
    }

    /** `Keyboard::set_layer`: write the two-byte report, read back one status byte and
        decode it. A failed write leaves the keyboard untouched; a failed read comes
        after the keyboard has already acted on the report. */
    method SetLayer(layer: Layer, t: Transfer) returns (r: KeyboardResult)
      requires Valid()
      modifies this, device
      ensures Valid()
      ensures r == SetLayerResult(device.layers, layer, t)
      ensures sent == old(sent) + if t.WriteFailed? then [] else [Frame(layer)]
      ensures t.WriteFailed? ==> unchanged(device)
      ensures !t.WriteFailed? ==>
        && device.current == (if Ordinal(layer) < device.layers then Ordinal(layer) else old(device.current))
        && device.replies == old(device.replies) + [if Ordinal(layer) < device.layers then OK else INVALID_INDEX]
    {
      var send := Frame(layer);
      if t.WriteFailed? {
        return Err(HidError);
      }
      // The HID library writes the whole report; the keyboard receives its payload.
      sent := sent + [send];
      var data := Payload(send);
      device.RawHidReceive(data, |data| as byte);
      LayerRoundTrip(device.layers, layer);
      if t.ReadFailed? {
        return Err(HidError);
      }
      // One status byte comes back: the first byte of the keyboard's reply.
      var recv := device.replies[|device.replies| - 1];
      ReplyDecodes(device.layers, data, 1);
      r := CodeToResult(recv);
    }
  }
}
