/**
  * The debug adapter's end of the serial line (tools/cor24-debug-adapter/src/main.rs): a decoder
  * for frames mixed with raw five-byte scheduler heartbeats.
  */
module Adapter {
  import opened Arithmetic
  import opened Bytes
  import Protocol

  const RAW_UART: byte := 0xfe
  // One byte short of a frame with the longest payload its length field can declare.
  const MAX_HELD: nat := 65542

  datatype Frame = Frame(kind: byte, channel: byte, payload: seq<byte>)

  // ----- Where something may start -----

  predicate SyncAt(s: seq<byte>, i: nat) {
    PairAt(s, 0xa5, 0x5a, i)
  }

  predicate HeartbeatAt(s: seq<byte>, i: nat) {
    PairAt(s, 0xff, 1, i)
  }

  predicate MarkAt(s: seq<byte>, i: nat) {
    SyncAt(s, i) || HeartbeatAt(s, i)
  }

  /** The earlier of the first sync pair and the first heartbeat prefix. */
  function FirstMark(s: seq<byte>): (r: Option<nat>)
    ensures r.Some? ==> MarkAt(s, r.value)
    ensures forall i: nat :: (r.None? || i < r.value) ==> !MarkAt(s, i)
  {
    match (FirstPair(s, 0xa5, 0x5a), FirstPair(s, 0xff, 1))
    case (Some(a), Some(b)) => Some(if a < b then a else b)
    case (Some(a), None) => Some(a)
    case (None, Some(b)) => Some(b)
    case (None, None) => None
  }

  // ----- One turn of the decoder's loop, and the loop to its end -----

  datatype Turn = Hold(rest: seq<byte>) | Move(frames: seq<Frame>, rest: seq<byte>)

  /** A buffer that starts with the sync pair: a whole candidate goes, accepted or not. */
  function FrameTurn(c: seq<byte>): (t: Turn)
    ensures t.Move? ==> |t.rest| < |c|
  {
    if |c| < 8 then Hold(c)
    else
      var length := U16(c[5], c[6]);
      if |c| < length + 8 then Hold(c)
      else
        var sum := Checksum(c[2..length + 7]);
        Move(if sum == c[length + 7] && c[2] == 1 then [Frame(c[3], c[4], c[7..length + 7])] else [],
             c[length + 8..])
  }

  function TakeTurn(b: seq<byte>): (t: Turn)
    ensures t.Move? ==> |t.rest| < |b|
  {
    if HeartbeatAt(b, 0) then
      if |b| < 5 then Hold(b) else Move([Frame(RAW_UART, 0, b[..5])], b[5..])
    else
      match FirstMark(b)
      case None =>
        Hold(if |b| > 0 && b[|b| - 1] in {0xa5, 0xff} then [b[|b| - 1]] else [])
      case Some(i) =>
        // Restarting at a heartbeat emits nothing, but the buffer has become shorter.
        if HeartbeatAt(b[i..], 0) then Move([], b[i..]) else FrameTurn(b[i..])
  }

  datatype Drained = Drained(frames: seq<Frame>, rest: seq<byte>)

  function Drain(b: seq<byte>): Drained
    decreases |b|
  {
    match TakeTurn(b)
    case Hold(rest) => Drained([], rest)
    case Move(frames, rest) => Drained(frames + Drain(rest).frames, Drain(rest).rest)
  }

  lemma {:induction false} DrainStep(b: seq<byte>)
    ensures Drain(b) == match TakeTurn(b)
                        case Hold(rest) => Drained([], rest)
                        case Move(frames, rest) =>
                          Drained(frames + Drain(rest).frames, Drain(rest).rest)
  {
  }

  // ----- Fragmentation -----

  /** Bytes before the first mark do not matter. */
  lemma {:induction false} DrainSkips(junk: seq<byte>, b: seq<byte>)
    requires forall i: nat | i < |junk| :: !MarkAt(junk + b, i)
    requires b == [] && junk != [] ==> junk[|junk| - 1] !in {0xa5, 0xff}
    ensures Drain(junk + b) == Drain(b)
  {
    hide Drain, FirstMark, FrameTurn;
    var s := junk + b;
    DrainStep(s);
    DrainStep(b);
    if junk == [] {
      assert s == b;
    } else {
      assert !MarkAt(s, 0);
      MarksMove(junk, b);
      assert HeartbeatAt(b, 0) ==> MarkAt(b, 0);
      match FirstMark(b) {
        case None =>
          assert if b == [] then s == junk else s[|s| - 1] == b[|b| - 1];
        case Some(p) =>
          assert s[|junk| + p..] == b[p..];
          assert b[0..] == b;
          DrainStep(b[p..]);
      }
      if FirstMark(b).Some? && HeartbeatAt(b[FirstMark(b).value..], 0) {
        var c := b[FirstMark(b).value..];
        assert [] + Drain(c).frames == Drain(c).frames;
      }
    }
  }

  lemma {:induction false} MarksMove(junk: seq<byte>, b: seq<byte>)
    requires forall i: nat | i < |junk| :: !MarkAt(junk + b, i)
    ensures FirstMark(junk + b) == match FirstMark(b)
                                   case None => None
                                   case Some(p) => Some(|junk| + p)
  {
    hide FirstMark;
    var s := junk + b;
    assert forall i: nat :: MarkAt(b, i) == MarkAt(s, |junk| + i);
    match FirstMark(s)
    case None =>
    case Some(q) =>
      assert q >= |junk| && MarkAt(b, q - |junk|);
  }

  lemma {:induction false} FrameTurnExtends(c: seq<byte>, more: seq<byte>)
    ensures match FrameTurn(c)
            case Hold(rest) => rest == c
            case Move(frames, rest) => FrameTurn(c + more) == Move(frames, rest + more)
  {
    hide Checksum;
    if FrameTurn(c).Move? {
      var length := U16(c[5], c[6]);
      assert (c + more)[2..length + 7] == c[2..length + 7];
      assert (c + more)[7..length + 7] == c[7..length + 7];
      assert (c + more)[length + 8..] == c[length + 8..] + more;
    }
  }

  lemma {:induction false} TurnExtends(a: seq<byte>, b: seq<byte>)
    ensures TakeTurn(a).Hold? ==> Drain(a + b) == Drain(TakeTurn(a).rest + b)
    ensures TakeTurn(a).Move? ==> TakeTurn(a + b) == Move(TakeTurn(a).frames, TakeTurn(a).rest + b)
  {
    hide TakeTurn, Drain, FirstMark;
    if HeartbeatAt(a, 0) {
      HeartbeatTurnExtends(a, b);
    } else {
      match FirstMark(a) {
        case None => UnmarkedTurnExtends(a, b);
        case Some(p) => MarkedTurnExtends(a, b, p);
      }
    }
  }

  lemma {:induction false} HeartbeatTurnExtends(a: seq<byte>, b: seq<byte>)
    requires HeartbeatAt(a, 0)
    ensures TakeTurn(a).Hold? ==> TakeTurn(a).rest == a
    ensures TakeTurn(a).Move? ==> TakeTurn(a + b) == Move(TakeTurn(a).frames, TakeTurn(a).rest + b)
  {
    hide FirstMark, FrameTurn;
    assert HeartbeatAt(a + b, 0);
    if |a| >= 5 { assert (a + b)[..5] == a[..5] && (a + b)[5..] == a[5..] + b; }
  }

  lemma {:induction false} UnmarkedTurnExtends(a: seq<byte>, b: seq<byte>)
    requires FirstMark(a) == None && !HeartbeatAt(a, 0)
    ensures TakeTurn(a).Hold? && Drain(a + b) == Drain(TakeTurn(a).rest + b)
  {
    hide Drain, FrameTurn, FirstMark;
    var rest := TakeTurn(a).rest;
    var junk := a[..|a| - |rest|];
    assert junk + (rest + b) == a + b;
    assert forall i: nat | i + 1 < |a| :: MarkAt(a + b, i) == MarkAt(a, i);
    DrainSkips(junk, rest + b);
  }

  lemma {:induction false} MarkedTurnExtends(a: seq<byte>, b: seq<byte>, p: nat)
    requires !HeartbeatAt(a, 0) && FirstMark(a) == Some(p)
    ensures TakeTurn(a).Hold? ==> Drain(a + b) == Drain(TakeTurn(a).rest + b)
    ensures TakeTurn(a).Move? ==> TakeTurn(a + b) == Move(TakeTurn(a).frames, TakeTurn(a).rest + b)
  {
    hide Drain, FrameTurn, FirstMark;
    var c := a[p..];
    assert (a + b)[p..] == c + b && MarkAt(a, p);
    assert forall i: nat | i + 1 < |a| :: MarkAt(a + b, i) == MarkAt(a, i);
    assert MarkAt(a + b, p) && FirstMark(a + b) == Some(p);
    FrameTurnExtends(c, b);
    if TakeTurn(a).Hold? {
      assert a[..p] + (c + b) == a + b;
      DrainSkips(a[..p], c + b);
    }
  }

  /** Reading `a` and then `b` is reading `a + b`, however the stream is cut. */
  lemma {:induction false} DrainAppend(a: seq<byte>, b: seq<byte>)
    ensures var first := Drain(a);
            var second := Drain(first.rest + b);
            Drain(a + b) == Drained(first.frames + second.frames, second.rest)
    decreases |a|
  {
    hide TakeTurn, Drain;
    TurnExtends(a, b);
    DrainStep(a);
    DrainStep(a + b);
    match TakeTurn(a)
    case Hold(rest) =>
      assert [] + Drain(rest + b).frames == Drain(rest + b).frames;
    case Move(frames, rest) =>
      DrainAppend(rest, b);
      var more, second := Drain(rest), Drain(Drain(rest).rest + b);
      assert frames + (more.frames + second.frames) == (frames + more.frames) + second.frames;
  }

  lemma {:induction false} DrainHolds(b: seq<byte>)
    ensures |Drain(b).rest| <= MAX_HELD
    decreases |b|
  {
    hide FirstMark, Checksum;
    match TakeTurn(b)
    case Hold(rest) =>
    case Move(_, rest) => DrainHolds(rest);
  }

  /** A complete candidate that is not accepted is dropped with everything it covers. */
  lemma {:induction false} BadCandidateIsSwallowed(c: seq<byte>, more: seq<byte>)
    requires SyncAt(c, 0) && |c| >= 8 && |c| == U16(c[5], c[6]) + 8
    requires c[2] != 1 || c[|c| - 1] != Checksum(c[2..|c| - 1])
    ensures Drain(c + more) == Drain(more)
  {
    hide FrameTurn, Drain;
    var b := c + more;
    BadCandidateTurn(c, more);
    assert MarkAt(b, 0) && b[0..] == b;
    assert TakeTurn(b) == Move([], more);
    DrainStep(b);
    assert [] + Drain(more).frames == Drain(more).frames;
  }

  lemma {:induction false} BadCandidateTurn(c: seq<byte>, more: seq<byte>)
    requires SyncAt(c, 0) && |c| >= 8 && |c| == U16(c[5], c[6]) + 8
    requires c[2] != 1 || c[|c| - 1] != Checksum(c[2..|c| - 1])
    ensures SyncAt(c + more, 0) && FrameTurn(c + more) == Move([], more)
  {
    hide Checksum;
    var b := c + more;
    assert b[2..|c| - 1] == c[2..|c| - 1] && b[|c|..] == more;
  }

  // ----- What the host sends -----

  datatype Item =
    | Framed(kind: byte, channel: byte, payload: seq<byte>)
    | Heartbeat(tick: nat)

  /** `encoded_frame` and `passthrough_frame`: the length is cut to sixteen bits. */
  function EncodedFrame(kind: byte, channel: byte, payload: seq<byte>): seq<byte> {
    var length := |payload| % 65536;
    var body: seq<byte> := [1, kind, channel, length % 256, length / 256] + payload;
    [0xa5, 0x5a] + body + [Checksum(body)]
  }

  /** Two mark bytes and three little-endian bytes of the tick, none of them escaped. */
  function SchedulerHeartbeat(tick: nat): seq<byte> {
    [0xff, 1, tick % 256, tick / 256 % 256, tick / 65536 % 256]
  }

  function Message(item: Item): seq<byte> {
    match item
    case Framed(kind, channel, payload) => EncodedFrame(kind, channel, payload)
    case Heartbeat(tick) => SchedulerHeartbeat(tick)
  }

  function Delivery(item: Item): Frame {
    match item
    case Framed(kind, channel, payload) => Frame(kind, channel, payload)
    case Heartbeat(tick) => Frame(RAW_UART, 0, SchedulerHeartbeat(tick))
  }

  function Messages(items: seq<Item>): seq<seq<byte>> {
    seq(|items|, i requires 0 <= i < |items| => Message(items[i]))
  }

  function Deliveries(items: seq<Item>): seq<Frame> {
    seq(|items|, i requires 0 <= i < |items| => Delivery(items[i]))
  }

  function Concat(messages: seq<seq<byte>>): seq<byte> {
    if messages == [] then [] else messages[0] + Concat(messages[1..])
  }

  predicate Sendable(items: seq<Item>) {
    forall item | item in items :: item.Framed? ==> |item.payload| <= 65535
  }

  /** What the adapter's frame says of the item: a frame's parts, or a heartbeat's tick in 24 bits, low byte first. */
  predicate Shows(frame: Frame, item: Item) {
    match item
    case Framed(kind, channel, payload) => frame.kind == kind && frame.channel == channel && frame.payload == payload
    case Heartbeat(tick) =>
      var p := frame.payload;
      && frame.kind == 0xfe && frame.channel == 0 && |p| == 5 && p[0] == 0xff && p[1] == 1
      && p[2] as int + 256 * p[3] as int + 65536 * p[4] as int == tick % 0x100_0000
  }

  lemma {:induction false} DeliveryShows(item: Item)
    ensures Shows(Delivery(item), item)
  {
    if item.Heartbeat? { TickDigits(item.tick); }
  }

  lemma {:induction false} TickDigits(tick: nat)
    ensures tick % 256 + 256 * (tick / 256 % 256) + 65536 * (tick / 65536 % 256) == tick % 0x100_0000
  {
    var a := tick / 256;
    var b := a / 256;
    var r := tick % 256 + 256 * (a % 256) + 65536 * (b % 256);
    Quotient(tick, 65536, b);
    Remainder(tick, 0x100_0000, b / 256, r);
  }

  lemma {:induction false} DeliveriesShow(items: seq<Item>)
    ensures forall i | 0 <= i < |items| :: Shows(Deliveries(items)[i], items[i])
  {
    forall i | 0 <= i < |items|
      ensures Shows(Deliveries(items)[i], items[i])
    {
      DeliveryShows(items[i]);
    }
  }

  /** The host's own encoder produces the frames the adapter reads. */
  lemma {:induction false} HostFrames(frame: Protocol.Frame)
    requires Protocol.Encode(frame).Ok?
    ensures Protocol.Encode(frame).value ==
            EncodedFrame(Protocol.Code(frame.kind), frame.channel, frame.payload)
  {
  }

  lemma {:induction false} TurnTakesItem(item: Item, more: seq<byte>)
    requires item.Framed? ==> |item.payload| <= 65535
    ensures TakeTurn(Message(item) + more) == Move([Delivery(item)], more)
  {
    hide FirstMark, FrameTurn, EncodedFrame;
    var m := Message(item);
    var b := m + more;
    match item
    case Heartbeat(tick) => assert b[..5] == m && b[5..] == more;
    case Framed(kind, channel, payload) =>
      FrameTurnTakes(kind, channel, payload, more);
      assert MarkAt(b, 0) && b[0..] == b;
  }

  lemma {:induction false} FrameTurnTakes(kind: byte, channel: byte, payload: seq<byte>, more: seq<byte>)
    requires |payload| <= 65535
    ensures var b := EncodedFrame(kind, channel, payload) + more;
            SyncAt(b, 0) && FrameTurn(b) == Move([Frame(kind, channel, payload)], more)
  {
    hide Checksum;
    var b, n := EncodedFrame(kind, channel, payload) + more, |payload|;
    assert b[2..n + 7] == [1, kind, channel, n % 256, n / 256] + payload;
    SliceOfSlice(b, 2, n + 7, 5, n + 5);
    assert b[7..n + 7] == payload;
    assert U16(b[5], b[6]) == n;
    assert b[n + 8..] == more;
  }

  /** Items of either sort, whatever their payloads contain, come back as they were sent. */
  lemma {:induction false} RoundTrip(items: seq<Item>)
    requires Sendable(items)
    ensures Drain(Concat(Messages(items))) == Drained(Deliveries(items), [])
    ensures var frames := Drain(Concat(Messages(items))).frames;
            |frames| == |items| && forall i | 0 <= i < |items| :: Shows(frames[i], items[i])
  {
    DeliveriesShow(items);
    hide TakeTurn, Message, Delivery, Drain, Shows;
    if items == [] {
      DrainNothing(Concat(Messages(items)));
    } else {
      var rest := items[1..];
      assert items[0] in items && Messages(items)[1..] == Messages(rest);
      TurnTakesItem(items[0], Concat(Messages(rest)));
      RoundTrip(rest);
      DrainStep(Concat(Messages(items)));
      assert Deliveries(items) == [Delivery(items[0])] + Deliveries(rest);
    }
  }

  lemma {:induction false} DrainNothing(b: seq<byte>)
    requires b == []
    ensures Drain(b) == Drained([], [])
  {
  }

  /** Until all of it has arrived, the adapter has an in-order beginning of what was sent. */
  lemma {:induction false} EndToEnd(items: seq<Item>, written: seq<byte>, queued: seq<byte>)
    requires Sendable(items)
    requires written + queued == Concat(Messages(items))
    ensures Drain(written).frames <= Deliveries(items)
    ensures forall i | 0 <= i < |Drain(written).frames| :: Shows(Drain(written).frames[i], items[i])
    ensures queued == [] ==> Drain(written) == Drained(Deliveries(items), [])
  {
    DeliveriesShow(items);
    hide Drain;
    DrainAppend(written, queued);
    RoundTrip(items);
    if queued == [] { assert written + queued == written; }
  }

  // ----- The decoder object -----

  class Decoder {
    var bytes: seq<byte>
    // All bytes read and all frames given.
    ghost var fed: seq<byte>
    ghost var given: seq<Frame>

    ghost predicate Valid()
      reads this
    {
      Drain(fed) == Drained(given, bytes)
    }

    constructor ()
      ensures Valid() && fed == [] && given == []
    {
      bytes, fed, given := [], [], [];
      new;
      hide Drain;
      DrainNothing(fed);
    }

    /** Take the complete candidate at the front of the buffer, with its frame if it is good. */
    method TakeCandidate() returns (frames: Option<seq<Frame>>)
      modifies this`bytes
      ensures FrameTurn(old(bytes)).Hold? ==> frames == None && bytes == old(bytes) == FrameTurn(old(bytes)).rest
      ensures FrameTurn(old(bytes)).Move? ==>
                frames.Some? && FrameTurn(old(bytes)) == Move(frames.value, bytes)
    {
      hide Checksum;
      if |bytes| < 8 {
        return None;
      }
      var len := U16(bytes[5], bytes[6]);
      if |bytes| < len + 8 {
        return None;
      }
      var end := len + 8;
      var checksum := Checksum(bytes[2..end - 1]);
      if checksum == bytes[end - 1] && bytes[2] == 1 {
        frames := Some([Frame(bytes[3], bytes[4], bytes[7..end - 1])]);
      } else {
        frames := Some([]);
      }
      bytes := bytes[end..];
    }

    method Push(input: seq<byte>) returns (frames: seq<Frame>)
      requires Valid()
      modifies this
      ensures Valid()
      ensures fed == old(fed) + input && given == old(given) + frames
      ensures Drained(frames, bytes) == Drain(old(bytes) + input)
      ensures |bytes| <= MAX_HELD
    {
      hide Drain, FirstMark, FrameTurn;
      bytes := bytes + input;
      frames := [];
      while true
        invariant Drain(old(bytes) + input) == Drained(frames + Drain(bytes).frames, Drain(bytes).rest)
        invariant fed == old(fed) && given == old(given)
        decreases |bytes|
      {
        TurnProgress(Drain(old(bytes) + input), frames, bytes);
        ghost var before := bytes;
        if HeartbeatAt(bytes, 0) {
          if |bytes| < 5 {
            break;
          }
          frames := frames + [Frame(RAW_UART, 0, bytes[..5])];
          bytes := bytes[5..];
          continue;
        }
        match FirstMark(bytes) {
          case None =>
            if |bytes| > 0 && bytes[|bytes| - 1] in {0xa5, 0xff} {
              bytes := [bytes[|bytes| - 1]];
            } else {
              bytes := [];
            }
            break;
          case Some(pos) =>
            bytes := bytes[pos..];
            if HeartbeatAt(bytes, 0) {
              assert frames + [] == frames;
              continue;
            }
            var taken := TakeCandidate();
            if taken == None {
              break;
            }
            frames := frames + taken.value;
        }
      }
      DrainAppend(fed, input);
      DrainHolds(old(bytes) + input);
      fed, given := fed + input, given + frames;
    }
  }

  lemma {:induction false} TurnProgress(whole: Drained, given: seq<Frame>, b: seq<byte>)
    requires whole == Drained(given + Drain(b).frames, Drain(b).rest)
    ensures match TakeTurn(b)
            case Hold(rest) => whole == Drained(given, rest)
            case Move(frames, rest) =>
              whole == Drained(given + frames + Drain(rest).frames, Drain(rest).rest)
  {
    hide TakeTurn;
    match TakeTurn(b)
    case Hold(_) => assert given + [] == given;
    case Move(frames, rest) =>
      assert given + (frames + Drain(rest).frames) == given + frames + Drain(rest).frames;
  }
}
