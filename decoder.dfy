/**
 * The `MultiplexedDecoder` object: the framer's state, the registered LNAV
 * callback, and the two entry points that feed it bytes and dispatch the
 * frames it completes.
 *
 * The byte loop is specified by `Run`, a left fold of `Framing.Step` over
 * the input that also collects the frames handed to the dispatcher and the
 * calls the dispatcher makes to the callback. A frame on which the
 * dispatcher raises (`Dispatcher.Raises`) ends the call: the exception
 * propagates out of `DecodeBytes` and the rest of that input is never read,
 * while the framer keeps the state it had at that moment.
 */
module Decoder {
  import opened Common
  import opened Framing
  import opened Lnav
  import opened Dispatcher

  /** The registered Python function, by identity. */
  datatype Callback = Callback(id: nat)

  /** One call of the callback, with the record `Lnav.Decode(payload)` decodes. */
  datatype Delivery = Delivery(callback: Callback, payload: seq<Byte>)

  /** The callback call, if any, that dispatching one frame makes. */
  function Delivered(frame: seq<Byte>, callback: Option<Callback>): (d: seq<Delivery>)
    ensures d != [] <==> callback.Some? && Dispatch(frame).LnavPayload?
    ensures d != [] ==> d == [Delivery(callback.value, frame[2..92])]
  {
    match Dispatch(frame)
    case LnavPayload(payload) => if callback.Some? then [Delivery(callback.value, payload)] else []
    case _ => []
  }

  /**
   * The framer state after some input, the frames handed to the dispatcher,
   * the calls made to the callback, and whether the dispatcher raised.
   */
  datatype Feed = Feed(state: Framer, frames: seq<seq<Byte>>, calls: seq<Delivery>, raised: bool)

  /** Nothing read yet. */
  function Fresh(s: Framer): Feed
  {
    Feed(s, [], [], false)
  }

  /** Read one more byte, unless an exception has already ended the call. */
  function Consume(callback: Option<Callback>, f: Feed, b: Byte): Feed
  {
    if f.raised then f
    else
      var r := Step(f.state, b);
      match r.frame
      case None => f.(state := r.next)
      case Some(frame) => Feed(r.next, f.frames + [frame], f.calls + Delivered(frame, callback), Raises(frame))
  }

  /** The result of reading the first k bytes of input, from framer state s. */
  function RunPrefix(s: Framer, callback: Option<Callback>, input: seq<Byte>, k: nat): Feed
    requires k <= |input|
  {
    if k == 0 then Fresh(s) else Consume(callback, RunPrefix(s, callback, input, k - 1), input[k - 1])
  }

  /** `DecodeBytes(input)` from framer state s, with this callback registered. */
  function Run(s: Framer, callback: Option<Callback>, input: seq<Byte>): Feed
  {
    RunPrefix(s, callback, input, |input|)
  }

  /** Reading a prefix depends on that prefix only. */
  lemma {:induction false} RunPrefixAgree(s: Framer, callback: Option<Callback>, x: seq<Byte>, y: seq<Byte>, k: nat)
    requires k <= |x| && k <= |y| && x[..k] == y[..k]
    ensures RunPrefix(s, callback, x, k) == RunPrefix(s, callback, y, k)
    decreases k
  {
    if k > 0 {
      assert x[k - 1] == x[..k][k - 1] && y[k - 1] == y[..k][k - 1];
      assert x[..k - 1] == x[..k][..k - 1] && y[..k - 1] == y[..k][..k - 1];
      RunPrefixAgree(s, callback, x, y, k - 1);
    }
  }

  /** Run reads its input one byte at a time, from the front. */
  lemma RunSnoc(s: Framer, callback: Option<Callback>, a: seq<Byte>, b: Byte)
    ensures Run(s, callback, a + [b]) == Consume(callback, Run(s, callback, a), b)
  {
    assert (a + [b])[..|a|] == a[..|a|];
    RunPrefixAgree(s, callback, a + [b], a, |a|);
  }

  lemma RunPair(s: Framer, callback: Option<Callback>, b0: Byte, b1: Byte)
    ensures Run(s, callback, [b0, b1]) == Consume(callback, Consume(callback, Fresh(s), b0), b1)
  {
    RunSnoc(s, callback, [], b0);
    RunSnoc(s, callback, [b0], b1);
    assert [] + [b0] == [b0] && [b0] + [b1] == [b0, b1];
  }

  /**
   * The rest of one call's input after what the call has already collected:
   * nothing more once the call has raised.
   */
  function Continue(callback: Option<Callback>, f: Feed, input: seq<Byte>): Feed
  {
    if f.raised then f
    else
      var g := Run(f.state, callback, input);
      Feed(g.state, f.frames + g.frames, f.calls + g.calls, g.raised)
  }

  /** Carrying on from a result that has collected nothing is a fresh run. */
  lemma ContinueFresh(callback: Option<Callback>, s: Framer, input: seq<Byte>)
    ensures Continue(callback, Fresh(s), input) == Run(s, callback, input)
  {
    var g := Run(s, callback, input);
    assert [] + g.frames == g.frames && [] + g.calls == g.calls;
  }

  /** What an earlier call collected stays in front of what the next byte adds. */
  lemma ConsumeAfter(callback: Option<Callback>, frames: seq<seq<Byte>>, calls: seq<Delivery>, g: Feed, b: Byte)
    ensures var h := Consume(callback, g, b);
      Consume(callback, Feed(g.state, frames + g.frames, calls + g.calls, g.raised), b) ==
      Feed(h.state, frames + h.frames, calls + h.calls, h.raised)
  {
    var r := Step(g.state, b);
    if !g.raised && r.frame.Some? {
      var more := Delivered(r.frame.value, callback);
      assert frames + g.frames + [r.frame.value] == frames + (g.frames + [r.frame.value]);
      assert calls + g.calls + more == calls + (g.calls + more);
    }
  }

  /**
   * Decoding a + b in one call is decoding a and then continuing with b,
   * unless a raised.
   */
  lemma {:induction false} RunConcat(s: Framer, callback: Option<Callback>, a: seq<Byte>, b: seq<Byte>)
    ensures Run(s, callback, a + b) == Continue(callback, Run(s, callback, a), b)
    decreases |b|
  {
    var f := Run(s, callback, a);
    if b == [] {
      assert a + b == a;
      assert f.frames + [] == f.frames && f.calls + [] == f.calls;
    } else {
      var n := |b|;
      var front, last := b[..n - 1], b[n - 1];
      assert a + b == (a + front) + [last];
      assert b == front + [last];
      RunSnoc(s, callback, a + front, last);
      RunConcat(s, callback, a, front);
      if !f.raised {
        RunSnoc(f.state, callback, front, last);
        ConsumeAfter(callback, f.frames, f.calls, Run(f.state, callback, front), last);
      }
    }
  }

  /** Two calls with the halves of an input do what one call with the whole does. */
  lemma SplitInput(s: Framer, callback: Option<Callback>, a: seq<Byte>, b: seq<Byte>)
    requires !Run(s, callback, a).raised
    ensures var first := Run(s, callback, a);
      var second := Run(first.state, callback, b);
      Run(s, callback, a + b) ==
        Feed(second.state, first.frames + second.frames, first.calls + second.calls, second.raised)
  {
    RunConcat(s, callback, a, b);
  }

  /** Once the dispatcher has raised, the rest of the input is not read. */
  lemma RaisedStops(s: Framer, callback: Option<Callback>, a: seq<Byte>, b: seq<Byte>)
    requires Run(s, callback, a).raised
    ensures Run(s, callback, a + b) == Run(s, callback, a)
  {
    RunConcat(s, callback, a, b);
  }

  /**
   * After a raise, one call and two calls differ: the second call reads its
   * input from the state the first one left, where one call stops.
   */
  lemma SecondCallAfterRaise(callback: Option<Callback>)
    ensures var s, a, b := Framer(true, false, []), [DLE, ETX], [DLE, STX];
      Run(s, callback, a).raised &&
      Run(s, callback, a + b).state == Framer(false, false, []) &&
      Run(Run(s, callback, a).state, callback, b).state == Framer(true, false, [])
  {
    var s, a, b := Framer(true, false, []), [DLE, ETX], [DLE, STX];
    CloseFrame([], callback);
    assert Raises([]);
    RaisedStops(s, callback, a, b);
    OpenFrame(Framer(false, false, []), callback);
  }

  /** An input whose first k bytes already raised gives the result of those k bytes. */
  lemma {:induction false} RaisedPrefix(s: Framer, callback: Option<Callback>, input: seq<Byte>, k: nat)
    requires k <= |input| && RunPrefix(s, callback, input, k).raised
    ensures Run(s, callback, input) == RunPrefix(s, callback, input, k)
    decreases |input| - k
  {
    if k < |input| {
      RaisedPrefix(s, callback, input, k + 1);
    }
  }

  /** Every state the framer reaches from a sound state is sound. */
  lemma {:induction false} RunStaysSound(s: Framer, callback: Option<Callback>, input: seq<Byte>, k: nat)
    requires Sound(s) && k <= |input|
    ensures Sound(RunPrefix(s, callback, input, k).state)
  {
    if k > 0 {
      RunStaysSound(s, callback, input, k - 1);
    }
  }

  /** With no callback registered, decoding calls nothing. */
  lemma {:induction false} NoCallbackNoCalls(s: Framer, input: seq<Byte>, k: nat)
    requires k <= |input|
    ensures RunPrefix(s, None, input, k).calls == []
  {
    if k > 0 {
      NoCallbackNoCalls(s, input, k - 1);
      var f := RunPrefix(s, None, input, k - 1);
      if !f.raised {
        var r := Step(f.state, input[k - 1]);
        if r.frame.Some? {
          assert Delivered(r.frame.value, None) == [];
        }
      }
    }
  }

  /** The callback calls that dispatching each frame in turn makes. */
  function DeliveredAll(frames: seq<seq<Byte>>, callback: Option<Callback>): seq<Delivery>
  {
    if frames == [] then []
    else DeliveredAll(frames[..|frames| - 1], callback) + Delivered(frames[|frames| - 1], callback)
  }

  /**
   * There are never more callback calls than frames handed to the dispatcher,
   * and each call goes to the registered callback with a 90-byte payload.
   */
  lemma {:induction false} CallsFollowFrames(s: Framer, callback: Callback, input: seq<Byte>, k: nat)
    requires k <= |input|
    ensures var f := RunPrefix(s, Some(callback), input, k);
      |f.calls| <= |f.frames| &&
      forall j :: 0 <= j < |f.calls| ==> f.calls[j].callback == callback && |f.calls[j].payload| == PayloadLength
  {
    if k > 0 {
      CallsFollowFrames(s, callback, input, k - 1);
    }
  }

  /**
   * The calls made to the callback are those that dispatching the frames
   * handed to the dispatcher makes, frame by frame and in order.
   */
  lemma {:induction false} CallsAreDelivered(s: Framer, callback: Option<Callback>, input: seq<Byte>, k: nat)
    requires k <= |input|
    ensures var f := RunPrefix(s, callback, input, k); f.calls == DeliveredAll(f.frames, callback)
  {
    if k > 0 {
      CallsAreDelivered(s, callback, input, k - 1);
      var f := RunPrefix(s, callback, input, k - 1);
      if !f.raised {
        var r := Step(f.state, input[k - 1]);
        if r.frame.Some? {
          DeliveredAllSnoc(f.frames, r.frame.value, callback);
        }
      }
    }
  }

  lemma DeliveredAllSnoc(frames: seq<seq<Byte>>, frame: seq<Byte>, callback: Option<Callback>)
    ensures DeliveredAll(frames + [frame], callback) == DeliveredAll(frames, callback) + Delivered(frame, callback)
  {
    assert (frames + [frame])[..|frames|] == frames;
  }

  // ---------------------------------------------------------------------
  // Round trip: a wrapped payload comes back out as one frame
  // ---------------------------------------------------------------------

  lemma OpenFrame(s: Framer, callback: Option<Callback>)
    requires !s.dleReceived
    ensures Run(s, callback, [DLE, STX]) == Fresh(Framer(true, false, []))
  {
    RunPair(s, callback, DLE, STX);
  }

  lemma CloseFrame(p: seq<Byte>, callback: Option<Callback>)
    requires |p| <= MaxBuffer
    ensures Run(Framer(true, false, p), callback, [DLE, ETX]) ==
      Feed(Framer(false, false, p), [p], Delivered(p, callback), Raises(p))
  {
    RunPair(Framer(true, false, p), callback, DLE, ETX);
    assert [] + Delivered(p, callback) == Delivered(p, callback);
  }

  lemma StuffedByte(c: seq<Byte>, x: Byte, callback: Option<Callback>)
    requires |c| < MaxBuffer
    ensures Run(Framer(true, false, c), callback, Stuff([x])) == Fresh(Framer(true, false, c + [x]))
  {
    var s := Framer(true, false, c);
    assert Stuff([x]) == (if x == DLE then [DLE, DLE] else [x]) + Stuff([]);
    if x == DLE {
      assert Stuff([x]) == [DLE, DLE];
      RunPair(s, callback, DLE, DLE);
    } else {
      assert Stuff([x]) == [] + [x];
      RunSnoc(s, callback, [], x);
    }
  }

  lemma {:induction false} StuffedPayload(c: seq<Byte>, p: seq<Byte>, callback: Option<Callback>)
    requires |c| + |p| <= MaxBuffer
    ensures Run(Framer(true, false, c), callback, Stuff(p)) == Fresh(Framer(true, false, c + p))
    decreases |p|
  {
    if p == [] {
      assert c + p == c;
    } else {
      var s, c' := Framer(true, false, c), c + [p[0]];
      var head, tail := Stuff([p[0]]), Stuff(p[1..]);
      assert Stuff(p) == head + tail;
      assert Run(s, callback, head) == Fresh(Framer(true, false, c')) by {
        StuffedByte(c, p[0], callback);
      }
      assert Run(Framer(true, false, c'), callback, tail) == Fresh(Framer(true, false, c + p)) by {
        StuffedPayload(c', p[1..], callback);
        assert c' + p[1..] == c + p;
      }
      assert Run(s, callback, head + tail) == Run(Framer(true, false, c'), callback, tail) by {
        RunConcat(s, callback, head, tail);
        ContinueFresh(callback, Framer(true, false, c'), tail);
      }
    }
  }

  /**
   * From any framer state that is not half-way through a DLE pair, a payload
   * of at most 4096 bytes sent as DLE STX, stuffed payload, DLE ETX is
   * handed to the dispatcher exactly once and unchanged.
   */
  lemma WrapRoundTrip(s: Framer, callback: Option<Callback>, p: seq<Byte>)
    requires !s.dleReceived && |p| <= MaxBuffer
    ensures Run(s, callback, Wrap(p)) ==
      Feed(Framer(false, false, p), [p], Delivered(p, callback), Raises(p))
  {
    var head := [DLE, STX] + Stuff(p);
    assert Run(s, callback, head) == Fresh(Framer(true, false, p)) by {
      OpenFrame(s, callback);
      StuffedPayload([], p, callback);
      assert [] + p == p;
      RunConcat(s, callback, [DLE, STX], Stuff(p));
    }
    assert Wrap(p) == head + [DLE, ETX];
    RunConcat(s, callback, head, [DLE, ETX]);
    CloseFrame(p, callback);
  }

  /** A payload of 4097 bytes is lost: the buffer is discarded before its closing DLE ETX is read. */
  lemma OversizePayloadLost(p: seq<Byte>, callback: Option<Callback>)
    requires |p| == MaxBuffer + 1
    ensures Run(Framer(true, false, p), callback, [DLE, ETX]) == Fresh(Framer(false, false, []))
  {
    RunPair(Framer(true, false, p), callback, DLE, ETX);
  }

  /**
   * End to end: an LNAV frame built by a sender and wrapped on the wire
   * reaches the registered callback once, with the payload it was built
   * from, whatever the time flag.
   */
  lemma LnavFrameDelivered(s: Framer, hasTime: bool, payload: seq<Byte>, callback: Callback)
    requires !s.dleReceived && |payload| == PayloadLength
    ensures var f := Run(s, Some(callback), Wrap(EncodeFrame(LnavMessageId, hasTime, payload)));
      !f.raised && f.calls == [Delivery(callback, payload)]
  {
    var m := EncodeFrame(LnavMessageId, hasTime, payload);
    WrapRoundTrip(s, Some(callback), m);
    DispatchEncodedFrame(LnavMessageId, hasTime, payload);
  }

  // ---------------------------------------------------------------------
  // The decoder object
  // ---------------------------------------------------------------------

  class MultiplexedDecoder {
    var inMessage: bool
    var dleReceived: bool
    var currentMessage: seq<Byte>
    var lnavCallback: Option<Callback>

    /** Every call of the callback, in order. */
    ghost var delivered: seq<Delivery>

    ghost function State(): Framer
      reads this
    {
      Framer(inMessage, dleReceived, currentMessage)
    }

    /**
     * The buffer never exceeds the size check by more than the byte just
     * appended, and never does while a DLE is pending.
     */
    ghost predicate Valid()
      reads this
    {
      Sound(State())
    }

    constructor ()
      ensures Valid() && State() == Idle && lnavCallback == None
      ensures delivered == []
    {
      inMessage := false;
      dleReceived := false;
      currentMessage := [];
      lnavCallback := None;
      delivered := [];
    }

    /** Register the function to call with each decoded LNAV record, replacing any earlier one. */
    method AddLnavCallback(func: Option<Callback>)
      modifies this`lnavCallback
      ensures lnavCallback == func
    {
      lnavCallback := func;
    }

    /** `__DecodeMessage`: returns true where the source raises IndexError. */
    method DecodeMessage(message: seq<Byte>) returns (raised: bool)
      modifies this`delivered
      ensures raised <==> Raises(message)
      ensures delivered == old(delivered) + Delivered(message, lnavCallback)
    {
      var checksum := Checksum(message);
      if checksum != 0 {
        return false;
      }
      if |message| < 2 {
        return true;
      }
      var hasTime := HasTime(message);
      var messageId := MessageId(message);
      if messageId == LnavMessageId && |message| - 3 == PayloadLength {
        var payload := message[2..92];
        if lnavCallback.Some? {
          delivered := delivered + [Delivery(lnavCallback.value, payload)];
        }
      }
      return false;
    }

    /**
     * One pass of the byte loop of `DecodeBytes`: the size check, the
     * framing rules, and the dispatch of a frame completed by DLE ETX.
     * Given the result `feed` of the bytes read so far, the object ends up
     * as `Consume` of it describes. Returns true where the dispatcher raises.
     */
    method DecodeByte(dbyte: Byte, ghost feed: Feed, ghost earlier: seq<Delivery>) returns (raised: bool)
      requires !feed.raised && State() == feed.state && delivered == earlier + feed.calls
      modifies this`inMessage, this`dleReceived, this`currentMessage, this`delivered
      ensures var next := Consume(lnavCallback, feed, dbyte);
        State() == next.state && raised == next.raised && delivered == earlier + next.calls
    {
      raised := false;
      if |currentMessage| > MaxBuffer {
        dleReceived := false;
        inMessage := false;
        currentMessage := [];
      }
      if dbyte == DLE {
        if dleReceived {
          dleReceived := false;
          if inMessage {
            currentMessage := currentMessage + [dbyte];
          }
        } else {
          dleReceived := true;
        }
      } else if dbyte == STX {
        if dleReceived {
          dleReceived := false;
          inMessage := true;
          currentMessage := [];
        } else if inMessage {
          currentMessage := currentMessage + [dbyte];
        }
      } else if dbyte == ETX {
        if dleReceived {
          dleReceived := false;
          if inMessage {
            inMessage := false;
            ghost var more := Delivered(currentMessage, lnavCallback);
            raised := DecodeMessage(currentMessage);
            assert earlier + feed.calls + more == earlier + (feed.calls + more);
          }
        } else if inMessage {
          currentMessage := currentMessage + [dbyte];
        }
      } else {
        if dleReceived {
          dleReceived := false;
          inMessage := false;
          currentMessage := [];
        } else if inMessage {
          currentMessage := currentMessage + [dbyte];
        }
      }
    }

    /**
     * Un-stuff and dispatch the given bytes, carrying the framer state over
     * from earlier calls. Returns true where an IndexError from the
     * dispatcher escapes the call.
     */
    method DecodeBytes(multiplexedBytes: seq<Byte>) returns (raised: bool)
      requires Valid()
      modifies this`inMessage, this`dleReceived, this`currentMessage, this`delivered
      ensures Valid()
      ensures var f := Run(old(State()), lnavCallback, multiplexedBytes);
        State() == f.state && raised == f.raised && delivered == old(delivered) + f.calls
    {
      ghost var start, delivered0 := State(), delivered;
      ghost var feed := Fresh(start);
      assert delivered == delivered0 + [];
      raised := false;
      var i := 0;
      while i < |multiplexedBytes| && !raised
        invariant i <= |multiplexedBytes| && feed == RunPrefix(start, lnavCallback, multiplexedBytes, i)
        invariant raised == feed.raised && Valid() && State() == feed.state
        invariant delivered == delivered0 + feed.calls
      {
        raised := DecodeByte(multiplexedBytes[i], feed, delivered0);
        feed := Consume(lnavCallback, feed, multiplexedBytes[i]);
        i := i + 1;
      }
      if raised {
        RaisedPrefix(start, lnavCallback, multiplexedBytes, i);
      }
    }
  }
}
