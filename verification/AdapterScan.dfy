/**
  * Which frames and heartbeats the adapter delivers from a stream that may be corrupt anywhere
  * (tools/cor24-debug-adapter/src/main.rs), against a scan of the stream position by position.
  */
module AdapterScan {
  import opened Bytes
  import opened Scan
  import opened Adapter

  /** The bytes of the heartbeat or complete candidate at `i`, good or not; 0 where there is none. */
  function Length(w: seq<byte>, i: nat): (n: nat)
    ensures i + n <= |w| || n == 0
  {
    if HeartbeatAt(w, i) then if i + 5 <= |w| then 5 else 0
    else if SyncAt(w, i) && i + 8 <= |w| && i + 8 + U16(w[i + 5], w[i + 6]) <= |w| then 8 + U16(w[i + 5], w[i + 6])
    else 0
  }

  function Extent(w: seq<byte>): nat -> nat {
    (i: nat) => Length(w, i)
  }

  /**
    * With the first `j` bytes read, position `k` cannot be decided: a heartbeat or candidate is not
    * complete there, or the last byte may begin one.
    */
  predicate WaitsAt(w: seq<byte>, j: nat, k: nat)
    requires j <= |w|
  {
    || (k + 1 == j && w[k] in {0xa5, 0xff})
    || (k + 1 < j && HeartbeatAt(w, k) && j < k + 5)
    || (k + 1 < j && SyncAt(w, k) && (j < k + 8 || j < k + 8 + U16(w[k + 5], w[k + 6])))
  }

  function Waits(w: seq<byte>, j: nat): nat -> bool
    requires j <= |w|
  {
    (k: nat) => WaitsAt(w, j, k)
  }

  /** Where a reading of the stream from `i`, of which `j` bytes are known, has to stop. */
  function Held(w: seq<byte>, i: nat, j: nat): nat
    requires j <= |w|
  {
    HeldFrom(Extent(w), Waits(w, j), i, j)
  }

  /** What the item at `i` gives: a heartbeat itself, a candidate its frame if it is good. */
  function FramesAt(w: seq<byte>, i: nat): seq<Frame>
    requires Length(w, i) > 0
  {
    var end := i + Length(w, i);
    if HeartbeatAt(w, i) then [Frame(RAW_UART, 0, w[i..end])]
    else if w[i + 2] == 1 && w[end - 1] == Checksum(w[i + 2..end - 1]) then
      [Frame(w[i + 3], w[i + 4], w[i + 7..end - 1])]
    else []
  }

  function Frames(w: seq<byte>, at: seq<nat>): seq<Frame>
    requires forall i | i in at :: Length(w, i) > 0
  {
    if at == [] then [] else FramesAt(w, at[0]) + Frames(w, at[1..])
  }

  lemma {:induction false} OnlyItems(w: seq<byte>, i: nat, end: nat)
    ensures forall k | k in Starts(Extent(w), i, end) :: Length(w, k) > 0
  {
    StartsInOrder(Extent(w), i, end);
  }

  function Scanned(w: seq<byte>, i: nat, end: nat): seq<Frame> {
    OnlyItems(w, i, end);
    Frames(w, Starts(Extent(w), i, end))
  }

  lemma {:induction false} ScannedNothing(w: seq<byte>, i: nat)
    ensures Scanned(w, i, i) == []
  {
  }

  lemma {:induction false} ScannedSkips(w: seq<byte>, i: nat, j: nat, end: nat)
    requires i <= j <= end && forall k | i <= k < j :: !MarkAt(w, k)
    ensures Scanned(w, i, end) == Scanned(w, j, end)
  {
    forall k: nat | i <= k < j
      ensures Extent(w)(k) == 0
    {
      assert !MarkAt(w, k);
    }
    StartsSkip(Extent(w), i, j, end);
  }

  lemma {:induction false} ScannedTakes(w: seq<byte>, i: nat, end: nat)
    requires i < end && Length(w, i) > 0
    ensures Scanned(w, i, end) == FramesAt(w, i) + Scanned(w, i + Length(w, i), end)
  {
    hide FramesAt;
    OnlyItems(w, i, end);
    OnlyItems(w, i + Length(w, i), end);
    var rest := Starts(Extent(w), i + Length(w, i), end);
    assert Starts(Extent(w), i, end) == [i] + rest;
    assert ([i] + rest)[1..] == rest;
  }

  // ----- The decoder against the scan -----

  lemma {:induction false} MarksAgree(w: seq<byte>, i: nat, j: nat)
    requires i <= j <= |w|
    ensures forall k: nat | i <= k && k + 1 < j :: MarkAt(w, k) == MarkAt(w[i..j], k - i)
    ensures i + 1 < j ==> HeartbeatAt(w, i) == HeartbeatAt(w[i..j], 0) && SyncAt(w, i) == SyncAt(w[i..j], 0)
  {
  }

  lemma {:induction false} HeartbeatTaken(w: seq<byte>, i: nat, j: nat)
    requires i + 5 <= j <= |w| && HeartbeatAt(w[i..j], 0)
    ensures Length(w, i) == 5 && FramesAt(w, i) == [Frame(RAW_UART, 0, w[i..j][..5])]
  {
    assert w[i..j][..5] == w[i..i + 5];
  }

  lemma {:induction false} CandidateTaken(w: seq<byte>, i: nat, j: nat)
    requires i <= j <= |w| && SyncAt(w[i..j], 0) && FrameTurn(w[i..j]).Move?
    ensures var t := FrameTurn(w[i..j]);
            Length(w, i) > 0 && t.frames == FramesAt(w, i) && |t.rest| == j - i - Length(w, i)
            && t.rest == w[i + Length(w, i)..j]
  {
    hide Checksum;
    var c := w[i..j];
    var length := U16(c[5], c[6]);
    SliceOfSlice(w, i, j, 2, length + 7);
    SliceOfSlice(w, i, j, 7, length + 7);
    SliceOfSlice(w, i, j, length + 8, j - i);
    assert c[length + 8..] == c[length + 8..j - i];
  }

  lemma {:induction false} HeldMoves(w: seq<byte>, i: nat, j: nat)
    requires i < j <= |w|
    ensures Held(w, i, j) == if WaitsAt(w, j, i) then i
                             else Held(w, i + if Length(w, i) > 0 then Length(w, i) else 1, j)
  {
    hide WaitsAt, Length;
  }

  lemma {:induction false} HeldPasses(w: seq<byte>, i: nat, at: nat, j: nat)
    requires i <= at <= j <= |w|
    requires forall k: nat | i <= k < at :: !MarkAt(w, k) && !WaitsAt(w, j, k)
    ensures Held(w, i, j) == Held(w, at, j)
  {
    forall k: nat | i <= k < at
      ensures Extent(w)(k) == 0 && !Waits(w, j)(k)
    {
      assert !MarkAt(w, k) && !WaitsAt(w, j, k);
    }
    HeldSkips(Extent(w), Waits(w, j), i, at, j);
  }

  /** What a turn does at a mark, in terms of the whole stream. */
  ghost predicate TurnAt(w: seq<byte>, i: nat, j: nat, t: Turn)
    requires i <= j <= |w|
  {
    if WaitsAt(w, j, i) then t == Hold(w[i..j])
    else Length(w, i) > 0 && i + Length(w, i) <= j && t == Move(FramesAt(w, i), w[i + Length(w, i)..j])
  }

  lemma {:induction false} HeartbeatTurnAt(w: seq<byte>, i: nat, j: nat)
    requires i <= j <= |w| && HeartbeatAt(w[i..j], 0)
    ensures TurnAt(w, i, j, TakeTurn(w[i..j]))
  {
    var b := w[i..j];
    MarksAgree(w, i, j);
    if |b| >= 5 {
      HeartbeatTaken(w, i, j);
      assert b[5..] == w[i + 5..j];
    }
  }

  lemma {:induction false} CandidateTurnAt(w: seq<byte>, i: nat, j: nat)
    requires i <= j <= |w| && SyncAt(w[i..j], 0)
    ensures TurnAt(w, i, j, FrameTurn(w[i..j]))
  {
    hide Checksum, FramesAt;
    MarksAgree(w, i, j);
    if FrameTurn(w[i..j]).Move? {
      CandidateTaken(w, i, j);
    }
  }

  /** The first mark, in terms of the whole stream, and what the turn does there. */
  lemma {:induction false} FirstMarkIn(w: seq<byte>, i: nat, j: nat)
    requires i <= j <= |w| && !HeartbeatAt(w[i..j], 0)
    ensures var first := FirstMark(w[i..j]);
            && (forall k: nat | i <= k && k + 1 < j && (first.None? || k < i + first.value) :: !MarkAt(w, k))
            && (first.None? ==>
                  TakeTurn(w[i..j]) == Hold(if i < j && w[j - 1] in {0xa5, 0xff} then [w[j - 1]] else []))
            && (first.Some? ==>
                  var at := i + first.value;
                  && at + 1 < j && MarkAt(w[at..j], 0)
                  && (HeartbeatAt(w[at..j], 0) ==> i < at && TakeTurn(w[i..j]) == Move([], w[at..j]))
                  && (!HeartbeatAt(w[at..j], 0) ==> TakeTurn(w[i..j]) == FrameTurn(w[at..j])))
  {
    hide FirstMark, FrameTurn;
    var b := w[i..j];
    MarksAgree(w, i, j);
    if FirstMark(b).Some? {
      var p := FirstMark(b).value;
      assert b[p..] == w[i + p..j];
      assert MarkAt(b[p..], 0);
      assert p == 0 ==> b[p..] == b;
    }
  }

  /** Without a mark only a last byte that may begin one is held. */
  lemma {:induction false} NoMarkHeld(w: seq<byte>, i: nat, j: nat)
    requires i <= j <= |w|
    requires forall k: nat | i <= k && k + 1 < j :: !MarkAt(w, k)
    ensures var held := if i < j && w[j - 1] in {0xa5, 0xff} then [w[j - 1]] else [];
            i <= Held(w, i, j) <= j && held == w[Held(w, i, j)..j] && Scanned(w, i, Held(w, i, j)) == []
  {
    hide Scanned;
    var end := if i < j && w[j - 1] in {0xa5, 0xff} then j - 1 else j;
    forall k: nat | i <= k < end
      ensures !MarkAt(w, k) && !WaitsAt(w, j, k)
    {
      assert k + 1 < j ==> !MarkAt(w, k);
    }
    HeldPasses(w, i, end, j);
    assert end < j ==> WaitsAt(w, j, end);
    if end < j { HeldMoves(w, end, j); }
    ScannedSkips(w, i, end, end);
    ScannedNothing(w, end);
  }

  /** For any stretch of any stream: the frames of the scan up to where it waits, and the bytes from there. */
  lemma {:induction false} DrainFrom(w: seq<byte>, i: nat, j: nat)
    requires i <= j <= |w|
    ensures i <= Held(w, i, j) <= j
    ensures Drain(w[i..j]) == Drained(Scanned(w, i, Held(w, i, j)), w[Held(w, i, j)..j])
    decreases j - i
  {
    hide TakeTurn, Drain, Scanned, Held, FirstMark, FrameTurn, WaitsAt, Length, FramesAt;
    var b := w[i..j];
    DrainStep(b);
    if HeartbeatAt(b, 0) {
      HeartbeatTurnAt(w, i, j);
      DrainAt(w, i, j, TakeTurn(b));
    } else {
      FirstMarkIn(w, i, j);
      if FirstMark(b).None? {
        NoMarkHeld(w, i, j);
      } else {
        var at := i + FirstMark(b).value;
        NoneWaits(w, i, at, j);
        HeldPasses(w, i, at, j);
        if HeartbeatAt(w[at..j], 0) {
          DrainFrom(w, at, j);
          assert [] + Drain(w[at..j]).frames == Drain(w[at..j]).frames;
        } else {
          CandidateTurnAt(w, at, j);
          DrainAt(w, at, j, FrameTurn(w[at..j]));
        }
        ScannedSkips(w, i, at, Held(w, at, j));
      }
    }
  }

  lemma {:induction false} NoneWaits(w: seq<byte>, i: nat, at: nat, j: nat)
    requires i <= at && at + 1 < j <= |w| && forall k: nat | i <= k < at :: !MarkAt(w, k)
    ensures forall k: nat | i <= k < at :: !WaitsAt(w, j, k)
  {
    forall k: nat | i <= k < at
      ensures !WaitsAt(w, j, k)
    {
      assert !MarkAt(w, k);
    }
  }

  /** From a mark on: hold, or take the item and go on after it. */
  lemma {:induction false} DrainAt(w: seq<byte>, i: nat, j: nat, t: Turn)
    requires i < j <= |w| && TurnAt(w, i, j, t)
    ensures i <= Held(w, i, j) <= j
    ensures (if t.Hold? then Drained([], t.rest) else Drained(t.frames + Drain(t.rest).frames, Drain(t.rest).rest))
            == Drained(Scanned(w, i, Held(w, i, j)), w[Held(w, i, j)..j])
    decreases j - i, 0
  {
    hide TakeTurn, Drain, Scanned, Held, WaitsAt, Length, FramesAt;
    HeldMoves(w, i, j);
    if WaitsAt(w, j, i) {
      ScannedNothing(w, i);
    } else {
      DrainFrom(w, i + Length(w, i), j);
      ScannedTakes(w, i, Held(w, i + Length(w, i), j));
    }
  }

  // ----- What is delivered -----

  /** The items taken from the first `j` bytes of the stream, up to the first position that waits. */
  function TakenFrom(w: seq<byte>, j: nat): seq<nat>
    requires j <= |w|
  {
    Starts(Extent(w), 0, Held(w, 0, j))
  }

  lemma {:induction false} WaitingIsIncomplete(w: seq<byte>, j: nat)
    requires j <= |w|
    ensures WaitsForItems(Extent(w), Waits(w, j), j)
  {
  }

  /**
    * For every prefix of every stream, the adapter has given the frames of the items taken, in
    * order, and holds the bytes from the first position that waits. A heartbeat or complete
    * candidate is taken if and only if no item taken, be that one good or not, covers its first
    * byte, nor leaves uncovered a position before it that waits.
    */
  lemma {:induction false} DeliversExactly(w: seq<byte>, j: nat)
    requires j <= |w|
    ensures forall k | k in TakenFrom(w, j) :: Length(w, k) > 0
    ensures Held(w, 0, j) <= j
    ensures Drain(w[..j]) == Drained(Frames(w, TakenFrom(w, j)), w[Held(w, 0, j)..j])
    ensures forall i: nat | Length(w, i) > 0 && i + Length(w, i) <= j ::
              i in TakenFrom(w, j) <==>
              && !Covered(Extent(w), TakenFrom(w, j), i)
              && forall k: nat | k < i && Waits(w, j)(k) :: Covered(Extent(w), TakenFrom(w, j), k)
  {
    assert w[0..j] == w[..j];
    DrainFrom(w, 0, j);
    OnlyItems(w, 0, Held(w, 0, j));
    WaitingIsIncomplete(w, j);
    hide Drain, Length, Covered, WaitsForItems, WaitsAt;
    forall i: nat | Length(w, i) > 0 && i + Length(w, i) <= j
      ensures i in TakenFrom(w, j) <==>
              && !Covered(Extent(w), TakenFrom(w, j), i)
              && forall k: nat | k < i && Waits(w, j)(k) :: Covered(Extent(w), TakenFrom(w, j), k)
    {
      TakenExactly(Extent(w), Waits(w, j), j, i);
    }
  }

  // ----- A frame that is lost, and frames in noise -----

  /** A frame inside a candidate of another version is lost, though it would be delivered by itself. */
  lemma {:induction false} LostInBadCandidate(kind: byte, channel: byte, payload: seq<byte>)
    requires |payload| + 8 <= 65535
    ensures var e := EncodedFrame(kind, channel, payload);
            var w := [0xa5, 0x5a, 2, 0, 0, |e| % 256, |e| / 256] + e + [0];
            && Drain(e) == Drained([Frame(kind, channel, payload)], [])
            && Drain(w) == Drained([], [])
            && w[7..7 + |e|] == e
  {
    var e := EncodedFrame(kind, channel, payload);
    var w := [0xa5, 0x5a, 2, 0, 0, |e| % 256, |e| / 256] + e + [0];
    hide EncodedFrame, Drain, Checksum;
    BadCandidateIsSwallowed(w, []);
    assert w + [] == w;
    DrainNothing([]);
    AloneIsDelivered(kind, channel, payload);
  }

  lemma {:induction false} AloneIsDelivered(kind: byte, channel: byte, payload: seq<byte>)
    requires |payload| <= 65535
    ensures Drain(EncodedFrame(kind, channel, payload)) == Drained([Frame(kind, channel, payload)], [])
  {
    hide EncodedFrame, Drain;
    var item := Framed(kind, channel, payload);
    RoundTrip([item]);
    OneMessage(item);
    assert Deliveries([item]) == [Frame(kind, channel, payload)];
  }

  /** Version 1 and the longest length: the beginning of a candidate that may still be good. */
  const PROMISE: seq<byte> := [0xa5, 0x5a, 1, 0, 0, 0xff, 0xff]

  /** A complete frame behind such a beginning is held back with it, though it would be delivered by itself. */
  lemma {:induction false} HeldBehindPromise(kind: byte, channel: byte, payload: seq<byte>)
    requires |payload| + 8 <= 65535
    ensures var e := EncodedFrame(kind, channel, payload);
            && Drain(e) == Drained([Frame(kind, channel, payload)], [])
            && Drain(PROMISE + e) == Drained([], PROMISE + e)
  {
    AloneIsDelivered(kind, channel, payload);
    var b := PROMISE + EncodedFrame(kind, channel, payload);
    assert |b| == 15 + |payload|;
    hide EncodedFrame, Drain, Checksum;
    assert MarkAt(b, 0) && b[0..] == b;
    assert FrameTurn(b) == Hold(b);
    hide FrameTurn;
    DrainStep(b);
  }

  lemma {:induction false} OneMessage(item: Item)
    ensures Concat(Messages([item])) == Message(item)
  {
    hide Message;
    assert Messages([item])[1..] == Messages([]);
    assert Message(item) + [] == Message(item);
  }

  /** Items with noise before, between and after them. */
  function Stream(noise: seq<seq<byte>>, items: seq<Item>): seq<byte>
    requires |noise| == |items| + 1
  {
    if items == [] then noise[0] else noise[0] + (Message(items[0]) + Stream(noise[1..], items[1..]))
  }

  /** Noise without a sync pair or a heartbeat prefix changes nothing. */
  lemma {:induction false} NoisyRoundTrip(noise: seq<seq<byte>>, items: seq<Item>)
    requires |noise| == |items| + 1 && Sendable(items)
    requires forall s, i: nat | s in noise :: !MarkAt(s, i)
    ensures Drain(Stream(noise, items)).frames == Deliveries(items)
    ensures |Drain(Stream(noise, items)).rest| <= 1
    decreases |items|
  {
    hide Drain, Message, Delivery, TakeTurn;
    assert noise[0] in noise;
    assert forall i: nat :: !MarkAt(noise[0], i);
    if items == [] {
      NoiseIsDropped(noise[0]);
    } else {
      var more := Stream(noise[1..], items[1..]);
      assert items[0] in items;
      var b := Message(items[0]) + more;
      NoMarkAcross(noise[0], items[0], more);
      DrainSkips(noise[0], b);
      TurnTakesItem(items[0], more);
      DrainStep(b);
      NoisyRoundTrip(noise[1..], items[1..]);
      assert Deliveries(items) == [Delivery(items[0])] + Deliveries(items[1..]);
    }
  }

  lemma {:induction false} NoiseIsDropped(noise: seq<byte>)
    requires forall i: nat :: !MarkAt(noise, i)
    ensures Drain(noise).frames == [] && |Drain(noise).rest| <= 1
  {
    hide Drain, FrameTurn;
    DrainStep(noise);
    assert !MarkAt(noise, 0);
  }

  /** An item begins with a byte that completes no mark. */
  lemma {:induction false} NoMarkAcross(noise: seq<byte>, item: Item, more: seq<byte>)
    requires forall i: nat :: !MarkAt(noise, i)
    ensures Message(item) + more != []
    ensures forall i: nat | i < |noise| :: !MarkAt(noise + (Message(item) + more), i)
  {
    var b := Message(item) + more;
    assert b[0] in {0xa5, 0xff};
    forall i: nat | i < |noise|
      ensures !MarkAt(noise + b, i)
    {
      assert !MarkAt(noise, i);
    }
  }
}
