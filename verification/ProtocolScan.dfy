/**
  * Which frames the host decoder delivers from a stream that may be corrupt anywhere
  * (tools/te-rs/src/protocol.rs): a good candidate is passed over exactly when it begins inside
  * another one that was taken.
  */
module ProtocolScan {
  import opened Bytes
  import opened Scan
  import opened Protocol

  function AcceptAt(w: seq<byte>, i: nat): Decoded
    requires GoodAt(w, i)
  {
    Accept(w[i + 3], w[i + 4], w[i + 7..i + 7 + LengthAt(w, i)])
  }

  function Accepts(w: seq<byte>, at: seq<nat>): seq<Decoded>
    requires forall i | i in at :: GoodAt(w, i)
  {
    if at == [] then [] else [AcceptAt(w, at[0])] + Accepts(w, at[1..])
  }

  /** Frames and unknown types: what is decided of candidates taken whole. */
  function Decisions(results: seq<Decoded>): seq<Decoded> {
    if results == [] then []
    else (if results[0].Ok? || results[0].error.UnknownType? then [results[0]] else []) + Decisions(results[1..])
  }

  /** Good candidates taken from the first `j` bytes of the stream, up to the first position that waits. */
  function TakenFrom(w: seq<byte>, j: nat): seq<nat>
    requires j <= |w|
  {
    Starts(Extent(w), 0, Held(w, 0, j))
  }

  lemma {:induction false} OnlyGood(w: seq<byte>, i: nat, end: nat)
    ensures forall k | k in Starts(Extent(w), i, end) :: GoodAt(w, k)
  {
    StartsInOrder(Extent(w), i, end);
  }

  lemma {:induction false} OwedDecides(w: seq<byte>, i: nat, end: nat)
    requires end <= |w|
    ensures forall k | k in Starts(Extent(w), i, end) :: GoodAt(w, k)
    ensures Decisions(Owed(w, i, end)) == Accepts(w, Starts(Extent(w), i, end))
    decreases if i < end then end - i else 0
  {
    hide GoodAt, Accept;
    OnlyGood(w, i, end);
    if i < end {
      var next := i + if GoodAt(w, i) then Extent(w)(i) else 1;
      OwedDecides(w, next, end);
      var more := Owed(w, next, end);
      if GoodAt(w, i) {
        Decided(AcceptAt(w, i), more);
        AcceptIsDecision(w, i);
        assert Starts(Extent(w), i, end) == [i] + Starts(Extent(w), next, end);
      } else if Owed(w, i, end) != more {
        Decided(Err(FaultAt(w, i)), more);
        assert [] + Decisions(more) == Decisions(more);
      }
    }
  }

  lemma {:induction false} Decided(first: Decoded, more: seq<Decoded>)
    ensures Decisions([first] + more)
            == (if first.Ok? || first.error.UnknownType? then [first] else []) + Decisions(more)
  {
    assert ([first] + more)[1..] == more;
  }

  /** A good candidate of a known type gives its frame, any other its unknown type. */
  lemma {:induction false} AcceptIsDecision(w: seq<byte>, i: nat)
    requires GoodAt(w, i)
    ensures AcceptAt(w, i).Ok? <==> 1 <= w[i + 3] <= 13
    ensures AcceptAt(w, i).Ok? ==> Encode(AcceptAt(w, i).value) == Ok(w[i..i + 8 + LengthAt(w, i)])
    ensures AcceptAt(w, i).Ok? || AcceptAt(w, i).error.UnknownType?
  {
    hide Checksum;
    if 1 <= w[i + 3] <= 13 {
      var n, b := LengthAt(w, i), w[i..i + 8 + LengthAt(w, i)];
      var f := AcceptAt(w, i).value;
      var body := w[i + 2..i + 7 + n];
      assert |f.payload| == n && n % 256 == w[i + 5] && n / 256 == w[i + 6];
      assert body == [VERSION, Code(f.kind), f.channel, n % 256, n / 256] + f.payload;
      assert w[i..i + 2] == [SYNC0, SYNC1];
      assert b == [SYNC0, SYNC1] + body + [w[i + 7 + n]];
      assert Layout(Code(f.kind), f.channel, f.payload) == [SYNC0, SYNC1] + body + [Checksum(body)];
    }
  }

  lemma {:induction false} WaitingIsIncomplete(w: seq<byte>, j: nat)
    requires j <= |w|
    ensures WaitsForItems(Extent(w), Waits(w, j), j)
  {
    hide Checksum;
  }

  /**
    * For every prefix of every stream, the frames and unknown types reported are those of the
    * candidates taken, in order; and a good candidate is taken if and only if no candidate taken
    * covers its first byte, nor leaves uncovered a position before it that waits.
    */
  lemma {:induction false} DeliversExactly(w: seq<byte>, j: nat)
    requires j <= |w|
    ensures forall k | k in TakenFrom(w, j) :: GoodAt(w, k)
    ensures Decisions(Drain(w[..j]).results) == Accepts(w, TakenFrom(w, j))
    ensures forall i: nat | GoodAt(w, i) && i + 8 + LengthAt(w, i) <= j ::
              i in TakenFrom(w, j) <==>
              && !Covered(Extent(w), TakenFrom(w, j), i)
              && forall k: nat | k < i && Waits(w, j)(k) :: Covered(Extent(w), TakenFrom(w, j), k)
  {
    DecoderMeetsReference(w, j);
    OwedDecides(w, 0, Held(w, 0, j));
    WaitingIsIncomplete(w, j);
    hide Drain, GoodAt, Owed, Covered, WaitsForItems, WaitsAt;
    forall i: nat | GoodAt(w, i) && i + 8 + LengthAt(w, i) <= j
      ensures i in TakenFrom(w, j) <==>
              && !Covered(Extent(w), TakenFrom(w, j), i)
              && forall k: nat | k < i && Waits(w, j)(k) :: Covered(Extent(w), TakenFrom(w, j), k)
    {
      TakenExactly(Extent(w), Waits(w, j), j, i);
    }
  }

  // ----- Frames that are lost or held back -----

  lemma {:induction false} LayoutDrains(code: byte, channel: byte, payload: seq<byte>)
    requires |payload| <= MAX_PAYLOAD
    ensures Drain(Layout(code, channel, payload)) == Drained([Accept(code, channel, payload)], [])
  {
    hide Layout, Candidate, TakeTurn, Drain;
    var b := Layout(code, channel, payload);
    LayoutIsTaken(code, channel, payload, []);
    assert b + [] == b;
    TurnAtSync(b);
    DrainStep(b);
    DrainNothing([]);
  }

  /** A frame inside a candidate of unknown type is lost, though it would be delivered by itself. */
  lemma {:induction false} LostInUnknown(f: Frame, code: byte, channel: byte)
    requires |f.payload| + 8 <= MAX_PAYLOAD && TryFrom(code) == None
    ensures Drain(Encode(f).value).results == [Ok(f)]
    ensures Drain(Layout(code, channel, Encode(f).value)) == Drained([Err(UnknownType(code))], [])
  {
    hide Layout, Drain;
    CodeIsKnown(f);
    LayoutDrains(Code(f.kind), f.channel, f.payload);
    LayoutDrains(code, channel, Encode(f).value);
  }

  /** Version 1 and a length of 1024: the beginning of a candidate that may still be good. */
  const PROMISE: seq<byte> := [SYNC0, SYNC1, VERSION, 0, 0, 0, 4]

  /** A complete frame behind such a beginning is held back with it, though it would be delivered by itself. */
  lemma {:induction false} HeldBehindPromise(f: Frame)
    requires |f.payload| + 8 <= MAX_PAYLOAD
    ensures Drain(Encode(f).value).results == [Ok(f)]
    ensures Drain(PROMISE + Encode(f).value) == Drained([], PROMISE + Encode(f).value)
  {
    CodeIsKnown(f);
    LayoutDrains(Code(f.kind), f.channel, f.payload);
    hide Layout, Drain, Candidate, TakeTurn;
    var b := PROMISE + Encode(f).value;
    assert SyncAt(b, 0);
    CandidateShape(b);
    TurnAtSync(b);
    DrainStep(b);
  }
}
