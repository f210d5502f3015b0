/** The `csp_packet_t` behind a `Packet`: header, length and payload. */
module Packet {
  import opened Bytes

  const U16_MAX: nat := 0xFFFF

  datatype Id = Id(pri: nat, src: nat, dst: nat, sport: nat, dport: nat, flags: nat)

  const ZERO_ID := Id(0, 0, 0, 0, 0, 0)

  function Min(a: nat, b: nat): nat {
    if a < b then a else b
  }

  lemma MinIs(a: nat, b: nat)
    ensures Min(a, b) <= a && Min(a, b) <= b && (Min(a, b) == a || Min(a, b) == b)
  {
  }

  /** The `csp_packet_t` behind a `Packet`. */
  class RawPacket {
    var length: nat                  // a u16
    var id: Id
    var timestampRx: nat             // driver timestamp of the last CAN frame
    var frameBegin: nat              // driver scratch: frame_begin, frame_length, rx_count
    var frameLength: nat
    var rxCount: nat
    const payload: array<byte>       // `BUFFER_SIZE` bytes

    ghost predicate Valid()
      reads this
    {
      length <= U16_MAX
    }

    /** `data()`: the used part of the payload, clamped again whatever C code put in `length`. */
    ghost function Data(): (r: seq<byte>)
      reads this, payload
      ensures |r| == if length <= payload.Length then length else payload.Length
      ensures forall k :: 0 <= k < |r| ==> r[k] == payload[k]
    {
      payload[..Min(length, payload.Length)]
    }

    constructor (bufferSize: nat)
      ensures Valid() && payload.Length == bufferSize && fresh(payload)
    {
      length, id, timestampRx := 0, ZERO_ID, 0;
      frameBegin, frameLength, rxCount := 0, 0, 0;
      payload := new byte[bufferSize](i => 0);
    }

    /** What `Packet::get` does to a buffer fresh from the pool: all of it is zeroed, so nothing of
        the previous user is left. */
    method Zero()
      modifies this, payload
      ensures Valid() && length == 0 && id == Id(0, 0, 0, 0, 0, 0) && timestampRx == 0 && Data() == []
      ensures frameBegin == 0 && frameLength == 0 && rxCount == 0
      ensures forall k :: 0 <= k < payload.Length ==> payload[k] == 0
    {
      length, id, timestampRx := 0, ZERO_ID, 0;
      frameBegin, frameLength, rxCount := 0, 0, 0;
      forall k | 0 <= k < payload.Length {
        payload[k] := 0;
      }
    }

    /** `set_length` clamps to the buffer. */
    method SetLength(len: nat)
      requires len <= 0xFFFF
      modifies this`length
      ensures Valid() && length == if len <= payload.Length then len else payload.Length
      ensures |Data()| == length && Data() == payload[..length]
    {
      length := Min(len, payload.Length);
    }

    /** `write`: refuses what does not fit, and otherwise stores it whole; the length goes through
        a `u16`, so `data()` gives it back if and only if its length fits one. */
    method Write(bytes: seq<byte>) returns (ok: bool)
      requires Valid()
      modifies this`length, payload
      ensures Valid() && (ok <==> |bytes| <= payload.Length)
      ensures !ok ==> length == old(length) && payload[..] == old(payload[..])
      ensures ok ==> payload[..] == bytes + old(payload[..])[|bytes|..]
      ensures ok ==> length == |bytes| % 0x1_0000 && Data() == bytes[..|bytes| % 0x1_0000]
      ensures ok ==> (Data() == bytes <==> |bytes| < 0x1_0000)
    {
      if |bytes| > payload.Length {
        return false;
      }
      forall k | 0 <= k < |bytes| {
        payload[k] := bytes[k];
      }
      assert payload[..] == bytes + old(payload[..])[|bytes|..];
      SetLength(|bytes| % (U16_MAX + 1));
      return true;
    }
  }
}
