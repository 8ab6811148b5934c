# Sonardyne multiplexed stream decoder, modelled in Dafny

This project models the receive side of Sonardyne's multiplexed serial
protocol and proves properties of it. It has three layers:

- **Framer** (`MultiplexedDecoder.DecodeBytes`): a byte-stuffing state machine.
  - It takes a stream of bytes and cuts it into frames delimited by DLE STX … DLE ETX.
  - A DLE inside a frame is doubled on the wire.
  - A frame longer than 4096 bytes is thrown away.
- **Dispatcher** (`MultiplexedDecoder.__DecodeMessage`):
  - It checks that the XOR of every byte of a frame is zero.
  - It reads a 10-bit message identifier from the two header bytes.
  - An LNAV frame (identifier 224, 93 bytes long) has its 90-byte payload decoded, and the result goes to the one registered callback.
- **LNAV decoder** (`LNAV.Decode`, `LNAV.GetStatus`):
  - It reads 29 fields from fixed offsets of the payload as little-endian unsigned integers, two's-complement signed integers or binary32 words.
  - It tests single bits of the 16-bit status mask.

Modules, one per file:

| file | module | contents |
|---|---|---|
| `common.dfy` | `Common` | bytes, `Option`, `Result`, powers of 2 and 256 |
| `bits.dfy` | `Bits` | Python's `&` and `^` on non-negative integers, defined bit by bit, with their algebra |
| `le_codec.dfy` | `LeCodec` | `int.from_bytes(b, "little", signed=...)`, and the encoders that invert it |
| `lnav.dfy` | `Lnav` | the LNAV record, `Decode`, the field table it follows, and `GetStatus` with the `StatusFlags` enumeration |
| `dispatch.dfy` | `Dispatcher` | the checksum loop, the identifier and time bit, the dispatch decision, and a frame builder as its partner |
| `framing.dfy` | `Framing` | one step of the framer as a pure function, its rules, and byte stuffing as its partner |
| `decoder.dfy` | `Decoder` | the fold that specifies the byte loop, the round-trip and chunking lemmas, and the `MultiplexedDecoder` class |

How the model is organised:

- **The class.** `MultiplexedDecoder` keeps the source's three fields (`inMessage`, `dleReceived`, `currentMessage`) and the callback.
  - `DecodeBytes` is a `while` loop over the input.
  - Its body is the method `DecodeByte`.
  - Both are proved against `Decoder.Run`, a left fold of `Framing.Step` over the input.
- **The fold.** `Run` collects three things: the frames handed to the dispatcher, the callback calls the dispatcher makes, and whether the dispatcher raised.
- **The callback.** It is modelled by its identity (`Callback`).
  - Each call it receives is recorded in the ghost log `delivered`, together with the 90-byte payload it was built from.
  - The record passed to it is `Lnav.Decode(payload)`, which always succeeds for those payloads: `CallsFollowFrames` shows they are 90 bytes, and `Lnav.Decode` succeeds on at least 88.

Facts of the code that shape the model:

- **Fields.** The LNAV record has 29 fields: 17 integers (TimeOfValidity through AccelerationDown), 11 binary32 words and the status mask.
- **Framer state.** It is two independent booleans, `inMessage` and `dleReceived`. The combination "DLE pending, no frame open" is reachable, and DLE ETX in it only clears the pending DLE.
- **Exceptions.** An exception can escape `DecodeBytes`:
  - It happens for a completed frame of zero or one byte whose XOR is zero, for example DLE STX DLE ETX.
  - `__DecodeMessage` then indexes `message[0]` or `message[1]` out of range, and the resulting IndexError propagates.
  - The model returns `raised = true` there and stops reading the input, as the Python loop does.
  - The framer keeps the state it had at that point: `inMessage` cleared, the short frame still in the buffer.
  - A later call starts again from that state and reads all of its input, so after a raise two calls differ from one call on the joined input (`Decoder.SecondCallAfterRaise`).
- **Status flags.** `StatusFlags` has 15 members, with positions 0 to 14.
  - Every member but `Euler` is written with a trailing comma, so its value is a one-element tuple.
  - `Euler`'s value is a bare integer, so `GetStatus(Euler)` raises TypeError, and `Lnav.GetStatus` returns `Failure` for it.
- **The buffer on DLE ETX.** DLE ETX does not empty the buffer. The next DLE STX does, and so do a DLE followed by any byte other than DLE, STX or ETX, and the size check.
- **Reachable states.** Between two bytes, the framer never has a DLE pending while more than 4096 bytes are buffered (`Framing.Sound`). The framing rules for a pending DLE are stated for such states.

## Model

| member | source | states |
|---|---|---|
| LeCodec.ExtractUnsigned | LNAV.py:113-126 | an n-byte unsigned little-endian value lies in [0, 256^n) |
| LeCodec.ExtractUnsignedSnoc | LNAV.py:126 | little-endian order: a byte appended at the end is added with weight 256^n, so the last byte is the most significant |
| LeCodec.TopByteIsSign | LNAV.py:141 | the top byte is at least 0x80 exactly when the unsigned value is at least 2^(8n-1) |
| LeCodec.ExtractSigned | LNAV.py:128-141 | an n-byte signed value lies in [-2^(8n-1), 2^(8n-1)); it is negative exactly when the top byte has bit 7 set; an empty slice reads as 0 |
| LeCodec.UnsignedRoundTrip | LNAV.py:113-126 | reading the n-byte little-endian encoding of any v < 256^n gives back v |
| LeCodec.UnsignedBytesOfExtract | LNAV.py:113-126 | encoding the value read from b gives back b, so distinct byte strings of one length read as distinct values |
| LeCodec.SignedRoundTrip | LNAV.py:128-141 | reading the n-byte two's-complement encoding of any in-range v gives back v |
| Lnav.Slice | LNAV.py:199 | Python slicing `m[lo:hi]`: equals `m[lo..hi]` when in bounds, `m[lo..]` when only hi is past the end, and is empty when lo is past the end |
| Lnav.Decode | LNAV.py:158-201 | decoding succeeds exactly when the input has at least 88 bytes, the point where the last binary32 slice is complete |
| Lnav.DecodedFields | LNAV.py:171-199 | on a 90-byte payload, each of the 29 fields is read from its own slice with its own encoding |
| Lnav.LayoutTilesPayload | LNAV.py:171-199 | the field table's slices are non-empty, contiguous, start at 0 and end at 90 |
| Lnav.DecodeFollowsLayout | LNAV.py:171-199 | field i of the decoded record is the table's reading of the table's slice, for every i |
| Lnav.FieldIsLocal | LNAV.py:171-199 | two payloads that agree on field i's slice decode to the same field i |
| Lnav.DecodedRanges | LNAV.py:171-199 | TimeOfValidity < 2^48; Heading, Altitude and StatusFlags < 2^16; the three 4-byte signed fields lie in [-2^31, 2^31) and the eleven 2-byte signed fields in [-2^15, 2^15) |
| Lnav.DecodedStatus | LNAV.py:199 | StatusFlags is payload byte 88 plus 256 times payload byte 89 |
| Lnav.ClippedStatus | LNAV.py:188-199 | on 88 or 89 bytes decoding succeeds and StatusFlags reads the clipped slice: 0, or byte 88 alone |
| Lnav.FlagPositions | LNAV.py:20-38 | the tuple-valued members of StatusFlags name 14 distinct bit positions, 0 to 13 |
| Lnav.Value | LNAV.py:20-38 | a member's value is a bare integer exactly for Euler; every other member's value is a one-element tuple |
| Lnav.GetStatus | LNAV.py:203-215 | GetStatus fails (TypeError) exactly for Euler |
| Lnav.GetStatusReadsBit | LNAV.py:215 | for any other flag, GetStatus is bit `position` of StatusFlags |
| Lnav.StatusBitOfBytes | LNAV.py:215 | with StatusFlags = lo + 256·hi, flag k reads bit k of lo for k < 8 and bit k-8 of hi otherwise |
| Lnav.StatusBitOfPayload | LNAV.py:199-215 | for a decoded payload, flag k reads bit k of byte 88 or bit k-8 of byte 89 |
| Bits.BitAnd | LNAV.py:215 | defines Python's `&` on non-negative integers bit by bit (its meaning on the masks the source uses: `BitAndPow2`, `LowTwoBits`) |
| Bits.Xor | MultiplexedDecoder.py:62 | defines Python's `^` on non-negative integers bit by bit (its algebra: `XorCommutes`, `XorAssociates`, `XorSelf`, `XorChanges`) |
| Bits.XorByte | MultiplexedDecoder.py:62 | the XOR of two bytes is again a byte, and is their `Xor` |
| Bits.BitAndPow2 | LNAV.py:215 | `x & (1 << k)` is `1 << k` when bit k of x is set and 0 otherwise |
| Bits.LowTwoBits | MultiplexedDecoder.py:69 | `x & 0x03` is x mod 4 |
| Dispatcher.XorAll | MultiplexedDecoder.py:59-63 | defines the checksum: the bytes XOR-ed together from the first on, starting from 0 (the loop `Checksum` is proved to compute it) |
| Dispatcher.Checksum | MultiplexedDecoder.py:59-63 | the checksum loop yields the XOR of every byte of the message |
| Dispatcher.XorAllUpdate | MultiplexedDecoder.py:59-63 | XOR-ing d into any one byte XORs d into the checksum |
| Dispatcher.CorruptedByteRejected | MultiplexedDecoder.py:59-65 | a valid frame with any bits of any one byte changed fails the checksum and is dropped |
| Dispatcher.MessageIdBits | MultiplexedDecoder.py:69 | the identifier is (m[0] mod 4)·256 + m[1], below 1024 |
| Dispatcher.MessageId | MultiplexedDecoder.py:69 | defines the identifier `((m[0] & 0x03) << 8) + m[1]` with Python's `&` (its value: `MessageIdBits`) |
| Dispatcher.HasTime | MultiplexedDecoder.py:68 | defines the time flag `m[0] & 0x80 == 0x80` (its meaning: `HasTimeIsBit7`) |
| Dispatcher.HasTimeIsBit7 | MultiplexedDecoder.py:68 | the time flag is bit 7 of the first byte |
| Dispatcher.Dispatch | MultiplexedDecoder.py:59-76 | a payload is handed on only from a 93-byte frame with zero XOR, and it is 90 bytes |
| Dispatcher.DecodedExactly | MultiplexedDecoder.py:73-74 | the payload is handed on if and only if the XOR is zero, the frame is 93 bytes and the identifier is 224; it is bytes 2 to 91 |
| Dispatcher.Raises | MultiplexedDecoder.py:67-69 | defines when the dispatcher raises IndexError: a zero-XOR frame too short to index `message[0]` and `message[1]` (its characterisation: `ShortFrameExactly`, `DecodeMessage`) |
| Dispatcher.ShortFrameExactly | MultiplexedDecoder.py:67-69 | the dispatcher raises exactly on zero-XOR frames of fewer than two bytes, the empty frame among them |
| Dispatcher.EncodedFrameChecks | MultiplexedDecoder.py:59-65 | a frame built with its XOR byte appended passes the checksum |
| Dispatcher.EncodedFrameHeader | MultiplexedDecoder.py:67-69 | the identifier and time flag read from a built frame are the ones it was built with |
| Dispatcher.DispatchEncodedFrame | MultiplexedDecoder.py:67-76 | a built frame hands over its payload unchanged iff the identifier is 224 and the payload is 90 bytes, whatever the time flag |
| Framing.Guard | MultiplexedDecoder.py:102-105 | after the size check the buffer holds at most 4096 bytes; the state is kept exactly when at most 4096 bytes were buffered, and is otherwise fully reset |
| Framing.Transition | MultiplexedDecoder.py:107-150 | the four-way dispatch on a byte: a frame is completed exactly by ETX after a DLE in an open frame, and it is the buffer; a byte adds at most one byte to the buffer; setting the pending DLE leaves the buffer alone |
| Framing.DleEtxOutsideFrame | MultiplexedDecoder.py:128-131 | DLE ETX with no frame open only clears the pending DLE and dispatches nothing |
| Framing.Sound | MultiplexedDecoder.py:102-150 | defines the states between two bytes: at most 4097 bytes buffered, and at most 4096 while a DLE is pending |
| Framing.Step | MultiplexedDecoder.py:101-150 | after any byte the buffer holds at most 4097 bytes, at most 4096 while a DLE is pending, and a completed frame at most 4096 |
| Framing.FrameOnlyOnDleEtx | MultiplexedDecoder.py:128-134 | a frame is completed iff the byte is ETX after a DLE inside a frame, and it is the buffer as it stood |
| Framing.DleStxOpensFrame | MultiplexedDecoder.py:117-122 | in any reachable state, DLE STX opens an empty frame whatever was in progress |
| Framing.EscapeViolationResets | MultiplexedDecoder.py:139-146 | DLE followed by a byte other than DLE, STX or ETX abandons the frame and clears the buffer |
| Framing.DoubledDleOutsideFrame | MultiplexedDecoder.py:107-115 | DLE DLE outside a frame sets and then clears the pending DLE, leaving the state as it was and dispatching nothing |
| Framing.DoubledDleIsData | MultiplexedDecoder.py:107-115 | DLE DLE inside a frame adds one DLE to the buffer |
| Framing.IdleIgnoresData | MultiplexedDecoder.py:123-150 | outside a frame, a byte that is not DLE, and not after a DLE, changes nothing beyond the size check |
| Framing.OversizeBufferDiscarded | MultiplexedDecoder.py:102-105 | with more than 4096 bytes buffered, the next byte is handled as by a fresh decoder |
| Framing.Stuff | MultiplexedDecoder.py:78-79 | stuffing never shortens a payload and leaves a payload without DLE unchanged |
| Decoder.Delivered | MultiplexedDecoder.py:73-76 | dispatching a frame calls the callback iff one is registered and the frame passes the gate, and then once, with bytes 2 to 91 |
| Decoder.Consume | MultiplexedDecoder.py:98-134 | defines one pass of the loop: a step of the framer and, on a completed frame, its dispatch, its callback call and whether it raised; nothing once it has raised |
| Decoder.RunPrefix | MultiplexedDecoder.py:98-150 | defines the loop over the first k bytes as a left fold of `Consume` |
| Decoder.Run | MultiplexedDecoder.py:98-150 | defines a whole call of `DecodeBytes` as the fold over all its input |
| Decoder.Continue | MultiplexedDecoder.py:80-150 | defines the rest of one call's input after what the call has collected so far: nothing more once the call has raised, otherwise the fold from the state reached, with frames and calls appended (related to the whole call by `RunConcat`) |
| Decoder.RunStaysSound | MultiplexedDecoder.py:98-150 | every framer state the loop reaches from a sound state is sound |
| Decoder.RunConcat | MultiplexedDecoder.py:98-150 | decoding a + b in one call is decoding a, then continuing with b from the state reached unless a raised |
| Decoder.SplitInput | MultiplexedDecoder.py:98-150 | chunking invariance when the first call does not raise: two calls with the halves give the framer state, frames and calls of one call with the whole |
| Decoder.SecondCallAfterRaise | MultiplexedDecoder.py:98-134 | after a raise, a second call reads its input from the state left while one call stops: from an open empty frame, DLE ETX raises, and DLE STX then opens a frame only in a second call |
| Decoder.RaisedStops | MultiplexedDecoder.py:128-134 | once the dispatcher has raised, no further input is read |
| Decoder.NoCallbackNoCalls | MultiplexedDecoder.py:75-76 | with no callback registered, decoding calls nothing |
| Decoder.CallsFollowFrames | MultiplexedDecoder.py:73-76 | there are never more calls than frames; every call goes to the registered callback with a 90-byte payload |
| Decoder.DeliveredAll | MultiplexedDecoder.py:73-76 | defines the callback calls made by dispatching a list of frames in order (the loop's calls are these: `CallsAreDelivered`) |
| Decoder.CallsAreDelivered | MultiplexedDecoder.py:73-134 | the calls the loop makes are exactly those that dispatching the frames it completed makes, frame by frame and in order |
| Decoder.OpenFrame | MultiplexedDecoder.py:117-122 | from a state not after a DLE, DLE STX leaves an open, empty frame and dispatches nothing |
| Decoder.CloseFrame | MultiplexedDecoder.py:128-134 | DLE ETX in an open frame dispatches the buffer once and closes the frame without emptying the buffer |
| Decoder.StuffedByte | MultiplexedDecoder.py:107-150 | the stuffed form of one byte appends exactly that byte to an open frame |
| Decoder.StuffedPayload | MultiplexedDecoder.py:107-150 | the stuffed form of a payload appends exactly that payload to an open frame, dispatching nothing |
| Decoder.WrapRoundTrip | MultiplexedDecoder.py:98-150 | DLE STX, the stuffed payload p and DLE ETX hand exactly p to the dispatcher exactly once, for any p of at most 4096 bytes |
| Decoder.OversizePayloadLost | MultiplexedDecoder.py:102-105 | a frame of 4097 bytes is discarded before its DLE ETX is read |
| Decoder.LnavFrameDelivered | MultiplexedDecoder.py:59-134 | a built LNAV frame sent on the wire reaches the callback exactly once, with its payload, whatever the time flag |
| Decoder.MultiplexedDecoder.constructor | MultiplexedDecoder.py:38-42 | a new decoder is idle, with an empty buffer and no callback |
| Decoder.MultiplexedDecoder.AddLnavCallback | MultiplexedDecoder.py:154-168 | registering a callback replaces the previous one |
| Decoder.MultiplexedDecoder.DecodeMessage | MultiplexedDecoder.py:44-76 | raises exactly on short zero-XOR frames, and calls the callback exactly as `Delivered` says |
| Decoder.MultiplexedDecoder.DecodeByte | MultiplexedDecoder.py:100-150 | one iteration of the loop moves the fields, the call log and the raised flag as one step of `Run` |
| Decoder.MultiplexedDecoder.DecodeBytes | MultiplexedDecoder.py:80-150 | the fields, the call log and whether an exception escapes are those of `Run` over the input, from the state left by earlier calls; the framer stays in a sound state: at most 4097 bytes buffered, at most 4096 while a DLE is pending |

## Left out

- `LNAV.__ExtractFloat` and the 11 binary32 fields: the fields are kept as their raw 4-byte words. IEEE 754 decoding and the platform's native byte order are not modelled.
- The scale factors applied to the integer fields (`* 90.0 / (1<<31)`, `/ 1e3`, …) are floating-point arithmetic. The record holds the raw integers before scaling.
- `LNAV.ToString` formats the record for printing. It is not modelled.
- The callback is modelled by its identity. What it does when called is unknown code, and its calls are recorded in a ghost log instead of being made. If it raised, the exception would end `DecodeBytes` like the IndexError does; that is not modelled.
- `hasTime` is computed by the source and never used. It is modelled only as the predicate `Dispatcher.HasTime`.
- `dbyte.to_bytes(1, 'big')` and the always-true `dbyte != ''` comparison: bytes are modelled as integers 0 to 255, so both disappear.
- The demonstration script `ExampleLnavDecoder.py` is not part of this model, and its frame is not evaluated byte by byte. `Decoder.LnavFrameDelivered` and `Lnav.DecodedFields` state the outcome for every frame of its form.
- Decoder.MultiplexedDecoder.DecodeMessage: does not call `Lnav.Decode` itself. The call log keeps the payload the record is decoded from, and `Lnav.Decode` on it always succeeds.
