/**
 * The byte-stuffed framing of the multiplexed stream
 * (`MultiplexedDecoder.DecodeBytes`), one byte at a time, as a function on
 * the decoder's three framing fields.
 *
 * Frames start with DLE STX and end with DLE ETX; a DLE inside a frame is
 * sent twice. A DLE followed by anything else abandons the frame, and a
 * buffer grown past 4096 bytes is thrown away before the next byte is read.
 */
module Framing {
  import opened Common

  const DLE: Byte := 0x10
  const STX: Byte := 0x02
  const ETX: Byte := 0x03

  /** The buffer is discarded when it holds more than this many bytes. */
  const MaxBuffer: nat := 4096

  /** `__inMessage`, `__dleReceived` and `__currentMessage`. */
  datatype Framer = Framer(inMessage: bool, dleReceived: bool, current: seq<Byte>)

  const Idle := Framer(false, false, [])

  /** The state after one byte, and the frame that byte completed, if any. */
  datatype StepResult = StepResult(next: Framer, frame: Option<seq<Byte>>)

  /** The size check that runs before every byte is looked at. */
  function Guard(s: Framer): (g: Framer)
    ensures |g.current| <= MaxBuffer
    ensures g == s || g == Idle
    ensures g == s <==> |s.current| <= MaxBuffer
  {
    if |s.current| > MaxBuffer then Idle else s
  }

  /** Add b to the buffer, if a frame is open. */
  function Append(s: Framer, b: Byte): Framer
  {
    if s.inMessage then s.(current := s.current + [b]) else s
  }

  /** The four-way dispatch on one byte, after the size check. */
  function Transition(s: Framer, b: Byte): (r: StepResult)
    ensures r.frame.Some? <==> b == ETX && s.dleReceived && s.inMessage
    ensures r.frame.Some? ==> r.frame.value == s.current
    ensures |r.next.current| <= |s.current| + 1
    ensures r.next.dleReceived ==> r.next.current == s.current
  {
    if b == DLE then
      if s.dleReceived then StepResult(Append(s.(dleReceived := false), b), None)
      else StepResult(s.(dleReceived := true), None)
    else if b == STX then
      if s.dleReceived then StepResult(Framer(true, false, []), None)
      else StepResult(Append(s, b), None)
    else if b == ETX then
      if s.dleReceived then
        if s.inMessage then StepResult(s.(dleReceived := false, inMessage := false), Some(s.current))
        else StepResult(s.(dleReceived := false), None)
      else StepResult(Append(s, b), None)
    else if s.dleReceived then StepResult(Idle, None)
    else StepResult(Append(s, b), None)
  }

  /** The states the framer can be in between two bytes. */
  predicate Sound(s: Framer)
  {
    |s.current| <= MaxBuffer + 1 && (s.dleReceived ==> |s.current| <= MaxBuffer)
  }

  /**
   * One iteration of the byte loop. Whatever the state before, the state
   * after is sound: a pending DLE never sits on a buffer that the next
   * size check would discard.
   */
  function Step(s: Framer, b: Byte): (r: StepResult)
    ensures |r.next.current| <= MaxBuffer + 1
    ensures r.next.dleReceived ==> |r.next.current| <= MaxBuffer
    ensures r.frame.Some? ==> |r.frame.value| <= MaxBuffer
  {
    Transition(Guard(s), b)
  }

  // ---------------------------------------------------------------------
  // The rules of the framing, one lemma each
  // ---------------------------------------------------------------------

  /** Only DLE ETX inside an open frame completes a frame, and it hands over the buffer as it stands. */
  lemma FrameOnlyOnDleEtx(s: Framer, b: Byte)
    ensures Step(s, b).frame.Some? <==> b == ETX && Guard(s).dleReceived && Guard(s).inMessage
    ensures Step(s, b).frame.Some? ==> Step(s, b).frame.value == s.current
  {
  }

  /** DLE STX always opens a new, empty frame, whatever was in progress. */
  lemma DleStxOpensFrame(s: Framer)
    requires s.dleReceived && Sound(s)
    ensures Step(s, STX) == StepResult(Framer(true, false, []), None)
  {
  }

  /** A DLE followed by a byte other than DLE, STX or ETX abandons the frame. */
  lemma EscapeViolationResets(s: Framer, b: Byte)
    requires s.dleReceived && Sound(s)
    requires b != DLE && b != STX && b != ETX
    ensures Step(s, b) == StepResult(Idle, None)
  {
  }

  /** DLE ETX outside a frame only clears the pending DLE. */
  lemma DleEtxOutsideFrame(s: Framer)
    requires !s.inMessage && s.dleReceived && Sound(s)
    ensures Step(s, ETX) == StepResult(s.(dleReceived := false), None)
  {
  }

  /** DLE DLE outside a frame changes nothing. */
  lemma DoubledDleOutsideFrame(s: Framer)
    requires !s.inMessage && !s.dleReceived && |s.current| <= MaxBuffer
    ensures Step(s, DLE) == StepResult(s.(dleReceived := true), None)
    ensures Step(Step(s, DLE).next, DLE) == StepResult(s, None)
  {
  }

  /** DLE DLE stands for one DLE byte of the frame. */
  lemma DoubledDleIsData(s: Framer)
    requires s.inMessage && !s.dleReceived && |s.current| <= MaxBuffer
    ensures Step(s, DLE) == StepResult(s.(dleReceived := true), None)
    ensures Step(Step(s, DLE).next, DLE) == StepResult(s.(current := s.current + [DLE]), None)
  {
  }

  /** Outside a frame, bytes that are not part of a DLE pair are ignored. */
  lemma IdleIgnoresData(s: Framer, b: Byte)
    requires !s.inMessage && !s.dleReceived && b != DLE
    ensures Step(s, b) == StepResult(Guard(s), None)
  {
  }

  /** Once the buffer holds more than 4096 bytes, the next byte starts from an idle framer. */
  lemma OversizeBufferDiscarded(s: Framer, b: Byte)
    requires |s.current| > MaxBuffer
    ensures Step(s, b) == Step(Idle, b)
  {
  }

  // ---------------------------------------------------------------------
  // Byte stuffing: what a sender puts on the wire
  // ---------------------------------------------------------------------

  /** Double every DLE of the payload. */
  function Stuff(p: seq<Byte>): (w: seq<Byte>)
    ensures |w| >= |p|
    ensures DLE !in p ==> w == p
  {
    if p == [] then []
    else (if p[0] == DLE then [DLE, DLE] else [p[0]]) + Stuff(p[1..])
  }

  /** A payload as a frame on the wire: DLE STX, the stuffed payload, DLE ETX. */
  function Wrap(p: seq<Byte>): seq<Byte>
  {
    [DLE, STX] + Stuff(p) + [DLE, ETX]
  }
}
