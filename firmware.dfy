/** The keyboard-side handler of layer requests (snippet.c). */
module QmkFirmware {
  import opened Prelude

  /** `enum result`: the reply codes. */
  const OK: byte := 0
  const INVALID_INDEX: byte := 1

  /** The guard of `raw_hid_receive`: a non-empty report whose first byte names one of
      the keyboard's `layers` layers. With `length == 0` the data is not read. */
  predicate Accepts(layers: nat, data: seq<byte>, length: byte)
    requires length as int <= |data|
  {
    length > 0 && (data[0] as nat) < layers
  }

  /** The reply code for a report: `OK` when it is accepted, `INVALID_INDEX` otherwise. */
  function ReplyCode(layers: nat, data: seq<byte>, length: byte): (code: byte)
    requires length as int <= |data|
    ensures code == OK || code == INVALID_INDEX
    ensures code == OK <==> Accepts(layers, data, length)
  {
    if Accepts(layers, data, length) then OK else INVALID_INDEX
  }

  /** The firmware state this handler touches. `layers` is `LAYERS`, the size of the
      keymap table; `current` is the layer `layer_move` last switched to; `replies`
      records the code each `raw_hid_send` call is given, one per call. */
  class Firmware {
    const layers: nat
    var current: nat
    var replies: seq<byte>

    ghost predicate Valid()
      reads this
    {
      current < layers
    }

    /** A keyboard with at least one layer, on its base layer and with nothing sent. */
    constructor (layers: nat)
      requires 0 < layers
      ensures Valid()
      ensures this.layers == layers && current == 0 && replies == []
    {
      this.layers := layers;
      current := 0;
      replies := [];
    }

    /** `raw_hid_receive`: move to the requested layer when it exists, and call
        `raw_hid_send` once per report with the reply code. For an empty report that
        call sends no bytes; the code it is given is still recorded. `data` holds at
        least `length` bytes. */
    method RawHidReceive(data: seq<byte>, length: byte)
      requires Valid()
      requires length as int <= |data|
      modifies this
      ensures Valid()
      ensures current == if Accepts(layers, data, length) then data[0] as nat else old(current)
      ensures replies == old(replies) + [ReplyCode(layers, data, length)]
    {
      var result := OK;
      if length > 0 && (data[0] as nat) < layers {
        current := data[0] as nat;   // layer_move(data[0])
      } else {
        result := INVALID_INDEX;
      }
      replies := replies + [result];   // raw_hid_send(&result, length)
    }
  }
}
