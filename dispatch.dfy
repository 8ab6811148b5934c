/**
 * The frame dispatcher (`MultiplexedDecoder.__DecodeMessage`): the XOR
 * checksum over the whole un-stuffed frame, the 10-bit message identifier,
 * and the hand-over of a 90-byte payload to the LNAV decoder.
 */
module Dispatcher {
  import opened Common
  import opened Bits
  import opened Lnav

  /** The only message identifier the decoder handles. */
  const LnavMessageId: nat := 224

  /** A frame carrying an LNAV message: two header bytes, 90 payload bytes, one checksum byte. */
  const LnavFrameLength: nat := 93

  /** XOR of every byte of m, accumulated from the first byte on. */
  function XorAll(m: seq<Byte>): Byte
  {
    if m == [] then 0 else XorByte(XorAll(m[..|m| - 1]), m[|m| - 1])
  }

  /** The checksum loop: XOR every byte of the message into an accumulator. */
  method Checksum(message: seq<Byte>) returns (checksum: Byte)
    ensures checksum == XorAll(message)
  {
    checksum := 0;
    for i := 0 to |message|
      invariant checksum == XorAll(message[..i])
    {
      assert message[..i + 1][..i] == message[..i];
      checksum := XorByte(checksum, message[i]);
    }
    assert message[..|message|] == message;
  }

  /** `((m[0] & 3) << 8) + m[1]`. */
  function MessageId(m: seq<Byte>): nat
    requires |m| >= 2
  {
    BitAnd(m[0], 3) * 256 + m[1]
  }

  /** `m[0] & 0x80 == 0x80`: computed by the source and never used. */
  predicate HasTime(m: seq<Byte>)
    requires |m| >= 1
  {
    BitAnd(m[0], 0x80) == 0x80
  }

  /** What handing a frame to the dispatcher does. */
  datatype Dispatched =
    | BadChecksum          // XOR of the frame is not zero: dropped
    | ShortFrame           // zero XOR but fewer than two bytes: indexing raises IndexError
    | Discarded            // another identifier, or not 93 bytes long: dropped
    | LnavPayload(payload: seq<Byte>)  // these bytes go to Lnav.Decode and the record to the callback

  function Dispatch(m: seq<Byte>): (d: Dispatched)
    ensures d.LnavPayload? ==> |m| == LnavFrameLength && XorAll(m) == 0 && |d.payload| == PayloadLength
  {
    if XorAll(m) != 0 then BadChecksum
    else if |m| < 2 then ShortFrame
    else if MessageId(m) == LnavMessageId && |m| - 3 == PayloadLength then LnavPayload(m[2..92])
    else Discarded
  }

  /** The frames on which the dispatcher raises IndexError: checksum zero, fewer than two bytes. */
  predicate Raises(m: seq<Byte>)
  {
    XorAll(m) == 0 && |m| < 2
  }

  // ---------------------------------------------------------------------
  // Properties of the dispatcher
  // ---------------------------------------------------------------------

  /** The callback gate: the record reaches the callback exactly under these three conditions. */
  lemma DecodedExactly(m: seq<Byte>)
    ensures Dispatch(m).LnavPayload? <==>
      XorAll(m) == 0 && |m| == LnavFrameLength && MessageId(m) == LnavMessageId
    ensures Dispatch(m).LnavPayload? ==> Dispatch(m).payload == m[2..92]
  {
  }

  /** Only a zero-XOR frame of zero or one byte makes the dispatcher raise. */
  lemma ShortFrameExactly(m: seq<Byte>)
    ensures Dispatch(m) == ShortFrame <==> Raises(m)
    ensures Dispatch([]) == ShortFrame
  {
  }

  /** The identifier depends on the two low bits of the first byte and on the second byte only. */
  lemma MessageIdBits(m: seq<Byte>)
    requires |m| >= 2
    ensures MessageId(m) == (m[0] as int % 4) * 256 + m[1]
    ensures MessageId(m) < 1024
  {
    LowTwoBits(m[0]);
  }

  /** The time flag is bit 7 of the first byte. */
  lemma HasTimeIsBit7(m: seq<Byte>)
    requires |m| >= 1
    ensures HasTime(m) <==> Bit(m[0], 7)
  {
    BitAndPow2(m[0], 7);
  }

  /** XOR-ing d into one byte of a frame XORs d into its checksum. */
  lemma {:induction false} XorAllUpdate(m: seq<Byte>, i: nat, d: Byte)
    requires i < |m|
    ensures XorAll(m[i := XorByte(m[i], d)]) == XorByte(XorAll(m), d)
    decreases |m|
  {
    var n := |m|;
    var m' := m[i := XorByte(m[i], d)];
    var pre, pre' := m[..n - 1], m'[..n - 1];
    if i == n - 1 {
      assert pre' == pre;
      XorAssociates(XorAll(pre), m[i], d);
    } else {
      assert pre' == pre[i := XorByte(pre[i], d)];
      XorAllUpdate(pre, i, d);
      XorAssociates(XorAll(pre), d, m[n - 1]);
      XorCommutes(d, m[n - 1]);
      XorAssociates(XorAll(pre), m[n - 1], d);
    }
  }

  /** Changing any bits of any one byte of a valid frame makes the dispatcher drop it. */
  lemma CorruptedByteRejected(m: seq<Byte>, i: nat, d: Byte)
    requires XorAll(m) == 0 && i < |m| && d != 0
    ensures Dispatch(m[i := XorByte(m[i], d)]) == BadChecksum
  {
    XorAllUpdate(m, i, d);
    XorChanges(0, d);
  }

  // ---------------------------------------------------------------------
  // Building frames: the partner of the dispatcher
  // ---------------------------------------------------------------------

  /** A frame as a sender builds it: header, payload, then the XOR of both. */
  function EncodeFrame(id: nat, hasTime: bool, payload: seq<Byte>): (m: seq<Byte>)
    requires id < 1024
    ensures |m| == |payload| + 3
  {
    var body := [(if hasTime then 0x80 else 0) + id / 256, id % 256] + payload;
    body + [XorAll(body)]
  }

  lemma {:induction false} EncodedFrameChecks(id: nat, hasTime: bool, payload: seq<Byte>)
    requires id < 1024
    ensures XorAll(EncodeFrame(id, hasTime, payload)) == 0
  {
    var m := EncodeFrame(id, hasTime, payload);
    var body := m[..|m| - 1];
    XorSelf(XorAll(body));
  }

  /** The identifier and time flag read back from a built frame are the ones it was built with. */
  lemma EncodedFrameHeader(id: nat, hasTime: bool, payload: seq<Byte>)
    requires id < 1024
    ensures MessageId(EncodeFrame(id, hasTime, payload)) == id
    ensures HasTime(EncodeFrame(id, hasTime, payload)) == hasTime
  {
    var m := EncodeFrame(id, hasTime, payload);
    MessageIdBits(m);
    HasTimeIsBit7(m);
    assert Pow2(7) == 128;
    BitSplit(id / 256, if hasTime then 1 else 0, 7, 7);
    assert m[0] == id / 256 + Pow2(7) * (if hasTime then 1 else 0);
  }

  /**
   * Dispatching a built frame hands its payload, unchanged, to the LNAV
   * decoder exactly when the identifier is 224 and the payload is 90 bytes;
   * the time flag plays no part.
   */
  lemma DispatchEncodedFrame(id: nat, hasTime: bool, payload: seq<Byte>)
    requires id < 1024
    ensures Dispatch(EncodeFrame(id, hasTime, payload)) ==
      if id == LnavMessageId && |payload| == PayloadLength then LnavPayload(payload)
      else Discarded
  {
    var m := EncodeFrame(id, hasTime, payload);
    EncodedFrameChecks(id, hasTime, payload);
    EncodedFrameHeader(id, hasTime, payload);
    if |payload| == PayloadLength {
      assert m[2..92] == payload;
    }
  }
}
