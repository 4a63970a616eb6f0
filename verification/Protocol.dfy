/**
  * The multiplexed transport of tools/te-rs/src/protocol.rs: frame encoding and the
  * incremental frame decoder, with an independent byte-at-a-time reference.
  */
module Protocol {
  import opened Bytes
  import opened Scan

  const SYNC0: byte := 0xa5
  const SYNC1: byte := 0x5a
  const VERSION: byte := 1
  const MAX_PAYLOAD: nat := 1024
  // The longest undecided candidate: one byte short of a frame with a full payload.
  const MAX_HELD: nat := 1031

  datatype FrameType =
    | TtyInput | TtyOutput | ChannelOpen | ChannelClose | ChannelTitle | Uptime | WallClock
    | ResourceSnapshot | DebugRequest | DebugResponse | ProtocolError | Hello | HelloAck

  function Code(kind: FrameType): byte {
    match kind
    case TtyInput => 1
    case TtyOutput => 2
    case ChannelOpen => 3
    case ChannelClose => 4
    case ChannelTitle => 5
    case Uptime => 6
    case WallClock => 7
    case ResourceSnapshot => 8
    case DebugRequest => 9
    case DebugResponse => 10
    case ProtocolError => 11
    case Hello => 12
    case HelloAck => 13
  }

  /** The frame type with this code; exactly the codes 1 to 13 have one. */
  function TryFrom(value: byte): (r: Option<FrameType>)
    ensures r.Some? <==> 1 <= value <= 13
    ensures r.Some? ==> Code(r.value) == value
  {
    match value
    case 1 => Some(TtyInput)
    case 2 => Some(TtyOutput)
    case 3 => Some(ChannelOpen)
    case 4 => Some(ChannelClose)
    case 5 => Some(ChannelTitle)
    case 6 => Some(Uptime)
    case 7 => Some(WallClock)
    case 8 => Some(ResourceSnapshot)
    case 9 => Some(DebugRequest)
    case 10 => Some(DebugResponse)
    case 11 => Some(ProtocolError)
    case 12 => Some(Hello)
    case 13 => Some(HelloAck)
    case _ => None
  }

  datatype Frame = Frame(kind: FrameType, channel: byte, payload: seq<byte>)

  /** The codes count the types in the order they are declared, from one. */
  lemma {:induction false} CodesCount()
    ensures var types := [TtyInput, TtyOutput, ChannelOpen, ChannelClose, ChannelTitle, Uptime, WallClock,
                          ResourceSnapshot, DebugRequest, DebugResponse, ProtocolError, Hello, HelloAck];
            |types| == 13 && forall i | 0 <= i < 13 :: Code(types[i]) as int == i + 1
  {
  }

  datatype EncodeError = PayloadTooLongToEncode(length: nat)

  datatype DecodeError =
    | BadVersion(version: byte)
    | UnknownType(code: byte)
    | PayloadTooLong(length: nat)
    | BadChecksum

  type Decoded = Result<Frame, DecodeError>

  /** Sync pair, version, type code, channel, length low and high, payload, checksum. */
  function Layout(code: byte, channel: byte, payload: seq<byte>): (bytes: seq<byte>)
    requires |payload| <= 65535
    ensures |bytes| == 8 + |payload|
  {
    var body := [VERSION, code, channel, |payload| % 256, |payload| / 256] + payload;
    [SYNC0, SYNC1] + body + [Checksum(body)]
  }

  function Encode(frame: Frame): Result<seq<byte>, EncodeError> {
    if |frame.payload| > MAX_PAYLOAD || |frame.payload| > 65535
    then Err(PayloadTooLongToEncode(|frame.payload|))
    else Ok(Layout(Code(frame.kind), frame.channel, frame.payload))
  }

  /** A frame can be encoded if and only if its payload is 1024 bytes or fewer. */
  lemma {:induction false} EncodeBound(frame: Frame)
    ensures Encode(frame).Ok? <==> |frame.payload| <= 1024
    ensures Encode(frame).Err? ==> Encode(frame).error == PayloadTooLongToEncode(|frame.payload|)
  {
  }

  // ----- One turn of the decoder's loop, and the loop to its end -----

  predicate SyncAt(s: seq<byte>, i: nat) {
    PairAt(s, SYNC0, SYNC1, i)
  }

  function FirstSync(s: seq<byte>): (r: Option<nat>)
    ensures r.Some? ==> SyncAt(s, r.value)
    ensures forall i: nat :: (r.None? || i < r.value) ==> !SyncAt(s, i)
  {
    FirstPair(s, SYNC0, SYNC1)
  }

  datatype Turn = Hold(rest: seq<byte>) | Yield(result: Decoded, rest: seq<byte>)

  /** The result of a complete candidate whose checksum is right. */
  function Accept(code: byte, channel: byte, payload: seq<byte>): Decoded {
    match TryFrom(code)
    case Some(kind) => Ok(Frame(kind, channel, payload))
    case None => Err(UnknownType(code))
  }

  /** What the loop does with a buffer that starts with the sync pair. */
  function Candidate(b: seq<byte>): (t: Turn)
    requires SyncAt(b, 0)
    ensures t.Yield? ==> |t.rest| < |b|
  {
    if |b| < 7 then Hold(b)
    else if b[2] != VERSION then Yield(Err(BadVersion(b[2])), b[1..])
    else
      var length := U16(b[5], b[6]);
      if length > MAX_PAYLOAD then Yield(Err(PayloadTooLong(length)), b[1..])
      else if |b| < 8 + length then Hold(b)
      else if b[7 + length] != Checksum(b[2..7 + length]) then Yield(Err(BadChecksum), b[1..])
      else Yield(Accept(b[3], b[4], b[7..7 + length]), b[8 + length..])
  }

  function TakeTurn(b: seq<byte>): (t: Turn)
    ensures t.Yield? ==> |t.rest| < |b|
  {
    match FirstSync(b)
    case None => Hold(if |b| > 0 && b[|b| - 1] == SYNC0 then [SYNC0] else [])
    case Some(sync) => Candidate(b[sync..])
  }

  datatype Drained = Drained(results: seq<Decoded>, rest: seq<byte>)

  function Drain(b: seq<byte>): Drained
    decreases |b|
  {
    match TakeTurn(b)
    case Hold(rest) => Drained([], rest)
    case Yield(result, rest) =>
      var more := Drain(rest);
      Drained([result] + more.results, more.rest)
  }

  lemma {:induction false} DrainStep(b: seq<byte>)
    ensures Drain(b) == match TakeTurn(b)
                        case Hold(rest) => Drained([], rest)
                        case Yield(result, rest) =>
                          Drained([result] + Drain(rest).results, Drain(rest).rest)
  {
  }

  lemma {:induction false} DrainNothing(b: seq<byte>)
    requires b == []
    ensures Drain(b) == Drained([], [])
  {
  }

  /** The loop's accumulator: one turn moves one result from what is owed to what is given. */
  lemma {:induction false} TurnProgress(whole: Drained, given: seq<Decoded>, b: seq<byte>)
    requires whole == Drained(given + Drain(b).results, Drain(b).rest)
    ensures match TakeTurn(b)
            case Hold(rest) => whole == Drained(given, rest)
            case Yield(result, rest) =>
              whole == Drained(given + [result] + Drain(rest).results, Drain(rest).rest)
  {
    hide TakeTurn;
    match TakeTurn(b)
    case Hold(_) => assert given + [] == given;
    case Yield(result, rest) =>
      assert given + ([result] + Drain(rest).results) == given + [result] + Drain(rest).results;
  }

  lemma {:induction false} TurnAtSync(b: seq<byte>)
    requires SyncAt(b, 0)
    ensures TakeTurn(b) == Candidate(b)
  {
    assert b[0..] == b;
  }

  // ----- Fragmentation -----

  lemma {:induction false} CandidateHolds(b: seq<byte>)
    requires SyncAt(b, 0)
    ensures Candidate(b).Hold? ==> Candidate(b).rest == b
  {
  }

  lemma {:induction false} CandidateExtends(b: seq<byte>, more: seq<byte>)
    requires SyncAt(b, 0)
    ensures Candidate(b).Yield? ==>
              Candidate(b + more) == Yield(Candidate(b).result, Candidate(b).rest + more)
  {
    hide Checksum, Accept;
    if Candidate(b).Yield? {
      assert (b + more)[1..] == b[1..] + more;
      var length := U16(b[5], b[6]);
      if b[2] == VERSION && length <= MAX_PAYLOAD {
        SlicesExtend(b, more, length);
      }
    }
  }

  lemma {:induction false} SlicesExtend(b: seq<byte>, more: seq<byte>, n: nat)
    requires 8 + n <= |b|
    ensures (b + more)[2..7 + n] == b[2..7 + n] && (b + more)[7..7 + n] == b[7..7 + n]
    ensures (b + more)[8 + n..] == b[8 + n..] + more && (b + more)[7 + n] == b[7 + n]
  {
  }

  /** Bytes before the first sync pair do not matter. */
  lemma {:induction false} TurnSkips(junk: seq<byte>, b: seq<byte>)
    requires forall i: nat | i < |junk| :: !SyncAt(junk + b, i)
    requires b == [] && junk != [] ==> junk[|junk| - 1] != SYNC0
    ensures TakeTurn(junk + b) == TakeTurn(b)
  {
    var s := junk + b;
    assert forall i: nat :: SyncAt(b, i) == SyncAt(s, |junk| + i);
    match FirstSync(b)
    case None =>
      assert forall i: nat :: SyncAt(s, i) ==> i >= |junk| && SyncAt(b, i - |junk|);
      assert FirstSync(s).None?;
      assert if b == [] then s == junk else s[|s| - 1] == b[|b| - 1];
    case Some(p) =>
      assert SyncAt(s, |junk| + p);
      var q := FirstSync(s).value;
      assert q >= |junk| && SyncAt(b, q - |junk|);
      assert q == |junk| + p;
      assert s[q..] == b[p..];
  }

  lemma {:induction false} TurnExtends(a: seq<byte>, b: seq<byte>)
    ensures TakeTurn(a).Yield? ==> TakeTurn(a + b) == Yield(TakeTurn(a).result, TakeTurn(a).rest + b)
    ensures TakeTurn(a).Hold? ==> TakeTurn(a + b) == TakeTurn(TakeTurn(a).rest + b)
  {
    var s := a + b;
    assert forall i: nat | i + 1 < |a| :: SyncAt(s, i) == SyncAt(a, i);
    match FirstSync(a)
    case None =>
      var rest := TakeTurn(a).rest;
      var junk := a[..|a| - |rest|];
      assert junk + (rest + b) == s;
      TurnSkips(junk, rest + b);
    case Some(p) =>
      var junk, c := a[..p], a[p..];
      assert junk + (c + b) == s;
      TurnSkips(junk, c + b);
      assert SyncAt(c, 0) && SyncAt(c + b, 0);
      hide Candidate;
      TurnAtSync(c + b);
      CandidateExtends(c, b);
      CandidateHolds(c);
  }

  /** Reading `a` and then `b` is reading `a + b`, however the stream is cut. */
  lemma {:induction false} DrainAppend(a: seq<byte>, b: seq<byte>)
    ensures var first := Drain(a);
            var second := Drain(first.rest + b);
            Drain(a + b) == Drained(first.results + second.results, second.rest)
    decreases |a|
  {
    hide TakeTurn;
    TurnExtends(a, b);
    match TakeTurn(a)
    case Hold(rest) =>
      assert [] + Drain(rest + b).results == Drain(rest + b).results;
    case Yield(result, rest) =>
      DrainAppend(rest, b);
      var more := Drain(rest);
      var second := Drain(more.rest + b).results;
      assert [result] + (more.results + second) == ([result] + more.results) + second;
  }

  /** What is kept between reads is undecided, and never longer than `MAX_HELD`. */
  lemma {:induction false} DrainHolds(b: seq<byte>)
    ensures |Drain(b).rest| <= MAX_HELD
    ensures Drain(Drain(b).rest) == Drained([], Drain(b).rest)
    decreases |b|
  {
    match TakeTurn(b)
    case Hold(rest) =>
      match FirstSync(b) {
        case None =>
        case Some(p) =>
          assert SyncAt(b[p..], 0);
          assert b[p..][0..] == b[p..];
      }
    case Yield(_, rest) => DrainHolds(rest);
  }

  // ----- The reference: candidates looked at one position after another -----

  /** A complete candidate of version 1 with a bounded length and a right checksum starts at `i`. */
  predicate GoodAt(w: seq<byte>, i: nat) {
    && SyncAt(w, i) && i + 7 <= |w| && w[i + 2] == VERSION
    && LengthAt(w, i) <= MAX_PAYLOAD && i + 8 + LengthAt(w, i) <= |w|
    && w[i + 7 + LengthAt(w, i)] == Checksum(w[i + 2..i + 7 + LengthAt(w, i)])
  }

  function LengthAt(w: seq<byte>, i: nat): nat
    requires i + 7 <= |w|
  {
    U16(w[i + 5], w[i + 6])
  }

  /** Why the candidate at `i` is not good. */
  function FaultAt(w: seq<byte>, i: nat): DecodeError
    requires i + 7 <= |w|
  {
    if w[i + 2] != VERSION then BadVersion(w[i + 2])
    else if LengthAt(w, i) > MAX_PAYLOAD then PayloadTooLong(LengthAt(w, i))
    else BadChecksum
  }

  /**
    * The results owed for positions `i` up to `end` of the whole stream `w`: each good
    * candidate once, passing over its bytes; an error at any other sync pair; nothing else.
    */
  ghost function Owed(w: seq<byte>, i: nat, end: nat): seq<Decoded>
    decreases |w| - i
  {
    if i >= end || i >= |w| then []
    else if GoodAt(w, i) then
      var length := LengthAt(w, i);
      [Accept(w[i + 3], w[i + 4], w[i + 7..i + 7 + length])] + Owed(w, i + 8 + length, end)
    else if SyncAt(w, i) && i + 7 <= |w| then [Err(FaultAt(w, i))] + Owed(w, i + 1, end)
    else Owed(w, i + 1, end)
  }

  /** The bytes a good candidate takes; 0 where there is none. */
  function Extent(w: seq<byte>): nat -> nat {
    (i: nat) => if GoodAt(w, i) then 8 + LengthAt(w, i) else 0
  }

  /**
    * With the first `j` bytes read, position `k` cannot be decided: a candidate with nothing wrong
    * so far is not complete there, or the last byte may be the first of the sync pair.
    */
  predicate WaitsAt(w: seq<byte>, j: nat, k: nat)
    requires j <= |w|
  {
    || (k + 1 == j && w[k] == SYNC0)
    || (k + 1 < j && SyncAt(w, k) &&
        (j < k + 7 || (w[k + 2] == VERSION && LengthAt(w, k) <= MAX_PAYLOAD && j < k + 8 + LengthAt(w, k))))
  }

  function Waits(w: seq<byte>, j: nat): nat -> bool
    requires j <= |w|
  {
    (k: nat) => WaitsAt(w, j, k)
  }

  /** Where a reading of the stream from `i`, of which `j` bytes are known, has to stop. */
  function Held(w: seq<byte>, i: nat, j: nat): nat
    requires j <= |w|
  {
    HeldFrom(Extent(w), Waits(w, j), i, j)
  }

  lemma {:induction false} OwedSkips(w: seq<byte>, i: nat, j: nat, end: nat)
    requires i <= j <= |w| && j <= end
    requires forall k: nat | i <= k < j :: !SyncAt(w, k)
    ensures Owed(w, i, end) == Owed(w, j, end)
    decreases j - i
  {
    if i < j { OwedSkips(w, i + 1, j, end); }
  }

  /**
    * The decoder neither misses a candidate nor holds on to one: having read the first `j` bytes of
    * any stream `w`, whatever follows them, it has produced exactly what is owed up to the first
    * position that waits, and holds the bytes from there on.
    */
  lemma {:induction false} DecoderMeetsReference(w: seq<byte>, j: nat)
    requires j <= |w|
    ensures Held(w, 0, j) <= j
    ensures Drain(w[..j]) == Drained(Owed(w, 0, Held(w, 0, j)), w[Held(w, 0, j)..j])
  {
    assert w[0..j] == w[..j];
    DrainFrom(w, 0, j);
  }

  lemma {:induction false} DrainFrom(w: seq<byte>, i: nat, j: nat)
    requires i <= j <= |w|
    ensures i <= Held(w, i, j) <= j
    ensures Drain(w[i..j]) == Drained(Owed(w, i, Held(w, i, j)), w[Held(w, i, j)..j])
    decreases j - i
  {
    hide Owed, GoodAt, FaultAt, Drain, Candidate, TakeTurn, Held, WaitsAt;
    var b := w[i..j];
    DrainStep(b);
    FirstSyncIn(w, i, j);
    match FirstSync(b)
    case None =>
      NoSyncHeld(w, i, j);
      OwedSkips(w, i, Held(w, i, j), Held(w, i, j));
      OwedNothing(w, Held(w, i, j));
    case Some(p) =>
      var at := i + p;
      CandidateWaits(w, at, j);
      HeldMoves(w, at, j);
      WaitSkips(w, i, at, j);
      if Candidate(w[at..j]).Hold? {
        OwedSkips(w, i, at, at);
        OwedNothing(w, at);
      } else {
        var next := j - |Candidate(w[at..j]).rest|;
        CandidateRest(w, at, j);
        DrainFrom(w, next, j);
        CandidateMeetsReference(w, at, j, Held(w, next, j));
        OwedSkips(w, i, at, Held(w, next, j));
      }
  }

  /** Where the sync pair is, in terms of the whole stream, and what the turn does there. */
  lemma {:induction false} FirstSyncIn(w: seq<byte>, i: nat, j: nat)
    requires i <= j <= |w|
    ensures var first := FirstSync(w[i..j]);
            && (forall k: nat | i <= k && k + 1 < j && (first.None? || k < i + first.value) :: !SyncAt(w, k))
            && (first.Some? ==> i + first.value + 1 < j && SyncAt(w[i + first.value..j], 0)
                                && TakeTurn(w[i..j]) == Candidate(w[i + first.value..j]))
  {
    hide FirstSync, Candidate;
    var b := w[i..j];
    assert forall k: nat | i <= k && k + 1 < j :: SyncAt(w, k) == SyncAt(b, k - i);
    if FirstSync(b).Some? {
      assert b[FirstSync(b).value..] == w[i + FirstSync(b).value..j];
    }
  }

  lemma {:induction false} NoSyncHeld(w: seq<byte>, i: nat, j: nat)
    requires i <= j <= |w| && FirstSync(w[i..j]).None?
    requires forall k: nat | i <= k && k + 1 < j :: !SyncAt(w, k)
    ensures i <= Held(w, i, j) <= j && TakeTurn(w[i..j]) == Hold(w[Held(w, i, j)..j])
    ensures forall k: nat | i <= k < Held(w, i, j) :: !SyncAt(w, k)
  {
    hide FirstSync, Candidate, TakeTurn, Held;
    NoSyncTurn(w[i..j]);
    var end := if i < j && w[j - 1] == SYNC0 then j - 1 else j;
    forall k: nat | i <= k < end
      ensures !SyncAt(w, k) && !WaitsAt(w, j, k)
    {
      assert k + 1 < j ==> !SyncAt(w, k);
    }
    HeldPasses(w, i, end, j);
    assert end < j ==> WaitsAt(w, j, end);
    if end < j { HeldMoves(w, end, j); } else { HeldAtEnd(w, j); }
  }

  lemma {:induction false} HeldAtEnd(w: seq<byte>, j: nat)
    requires j <= |w|
    ensures Held(w, j, j) == j
  {
  }

  lemma {:induction false} HeldPasses(w: seq<byte>, i: nat, at: nat, j: nat)
    requires i <= at <= j <= |w|
    requires forall k: nat | i <= k < at :: !SyncAt(w, k) && !WaitsAt(w, j, k)
    ensures Held(w, i, j) == Held(w, at, j)
  {
    hide WaitsAt;
    forall k: nat | i <= k < at
      ensures Extent(w)(k) == 0 && !Waits(w, j)(k)
    {
      assert !SyncAt(w, k) && !WaitsAt(w, j, k);
    }
    HeldSkips(Extent(w), Waits(w, j), i, at, j);
  }

  lemma {:induction false} NoSyncTurn(b: seq<byte>)
    requires FirstSync(b).None?
    ensures TakeTurn(b) == Hold(if |b| > 0 && b[|b| - 1] == SYNC0 then [SYNC0] else [])
  {
  }

  lemma {:induction false} WaitSkips(w: seq<byte>, i: nat, at: nat, j: nat)
    requires i <= at && at + 1 < j <= |w|
    requires forall k: nat | i <= k < at :: !SyncAt(w, k)
    ensures Held(w, i, j) == Held(w, at, j)
  {
    forall k: nat | i <= k < at
      ensures !SyncAt(w, k) && !WaitsAt(w, j, k)
    {
      assert !SyncAt(w, k);
    }
    HeldPasses(w, i, at, j);
  }

  /** A candidate is held exactly while it waits; otherwise it is taken if good, and its first byte dropped if not. */
  lemma {:induction false} CandidateWaits(w: seq<byte>, i: nat, j: nat)
    requires i <= j <= |w| && SyncAt(w[i..j], 0)
    ensures var t := Candidate(w[i..j]);
            && (t.Hold? <==> WaitsAt(w, j, i))
            && (t.Hold? ==> t.rest == w[i..j])
            && (t.Yield? ==> j - |t.rest| == if GoodAt(w, i) then i + 8 + LengthAt(w, i) else i + 1)
  {
    hide Checksum, Candidate;
    CandidateShape(w[i..j]);
    SyncInside(w, i, j);
    if i + 7 <= j && i + 8 + LengthAt(w, i) <= j {
      SliceOfSlice(w, i, j, 2, 7 + LengthAt(w, i));
    }
  }

  lemma {:induction false} CandidateShape(b: seq<byte>)
    requires SyncAt(b, 0)
    ensures var t := Candidate(b);
            if |b| < 7 then t == Hold(b)
            else
              var n := U16(b[5], b[6]);
              var plausible := b[2] == VERSION && n <= MAX_PAYLOAD;
              if plausible && |b| < 8 + n then t == Hold(b)
              else t.Yield? && |b| - |t.rest| ==
                   if plausible && b[7 + n] == Checksum(b[2..7 + n]) then 8 + n else 1
  {
    hide Checksum, Accept;
  }

  lemma {:induction false} SyncInside(w: seq<byte>, i: nat, j: nat)
    requires i <= j <= |w| && SyncAt(w[i..j], 0)
    ensures SyncAt(w, i) && i + 1 < j
    ensures i + 7 <= j ==> w[i..j][2] == w[i + 2] && U16(w[i..j][5], w[i..j][6]) == LengthAt(w, i)
  {
  }

  lemma {:induction false} HeldMoves(w: seq<byte>, i: nat, j: nat)
    requires i < j <= |w|
    ensures Held(w, i, j) == if WaitsAt(w, j, i) then i
                             else Held(w, if GoodAt(w, i) then i + 8 + LengthAt(w, i) else i + 1, j)
  {
    hide WaitsAt, GoodAt, LengthAt;
  }

  lemma {:induction false} OwedNothing(w: seq<byte>, end: nat)
    ensures Owed(w, end, end) == []
  {
  }

  lemma {:induction false} CandidateRest(w: seq<byte>, i: nat, j: nat)
    requires i <= j <= |w| && SyncAt(w[i..j], 0) && Candidate(w[i..j]).Yield?
    ensures var t := Candidate(w[i..j]);
            i < j - |t.rest| <= j && t.rest == w[j - |t.rest|..j]
  {
    var c := w[i..j];
    assert forall k: nat | k <= |c| :: c[k..] == w[i + k..j];
  }

  lemma {:induction false} CandidateMeetsReference(w: seq<byte>, i: nat, j: nat, end: nat)
    requires i < end && i <= j <= |w| && SyncAt(w[i..j], 0) && Candidate(w[i..j]).Yield?
    ensures var t := Candidate(w[i..j]);
            Owed(w, i, end) == [t.result] + Owed(w, j - |t.rest|, end)
  {
    hide Candidate, GoodAt, FaultAt, Accept, WaitsAt;
    SyncInside(w, i, j);
    CandidateWaits(w, i, j);
    CandidateResult(w, i, j);
  }

  lemma {:induction false} CandidateResult(w: seq<byte>, i: nat, j: nat)
    requires i <= j <= |w| && SyncAt(w[i..j], 0) && Candidate(w[i..j]).Yield?
    ensures i + 7 <= j
    ensures var n := LengthAt(w, i);
            Candidate(w[i..j]).result ==
            if GoodAt(w, i) then Accept(w[i + 3], w[i + 4], w[i + 7..i + 7 + n]) else Err(FaultAt(w, i))
  {
    hide Checksum, Accept;
    SyncInside(w, i, j);
    var n := LengthAt(w, i);
    if i + 8 + n <= j {
      SliceOfSlice(w, i, j, 2, 7 + n);
      SliceOfSlice(w, i, j, 7, 7 + n);
    }
  }

  // ----- Round trip -----

  /** A candidate of any code at the front of the buffer is taken whole. */
  lemma {:induction false} LayoutIsTaken(code: byte, channel: byte, payload: seq<byte>, more: seq<byte>)
    requires |payload| <= MAX_PAYLOAD
    ensures var b := Layout(code, channel, payload) + more;
            SyncAt(b, 0) && Candidate(b) == Yield(Accept(code, channel, payload), more)
  {
    hide Checksum, Accept;
    var b, n := Layout(code, channel, payload) + more, |payload|;
    var body := [VERSION, code, channel, n % 256, n / 256] + payload;
    LayoutParts(body, more);
    SliceOfSlice(b, 2, 7 + n, 5, 5 + n);
    assert body[5..] == payload;
  }

  lemma {:induction false} LayoutParts(body: seq<byte>, more: seq<byte>)
    ensures var b := [SYNC0, SYNC1] + body + [Checksum(body)] + more;
            && b[0] == SYNC0 && b[1] == SYNC1 && b[2..2 + |body|] == body
            && b[2 + |body|] == Checksum(body) && b[3 + |body|..] == more
            && forall k | 0 <= k < |body| :: b[2 + k] == body[k]
  {
    hide Checksum;
  }

  lemma {:induction false} CodeIsKnown(frame: Frame)
    ensures Accept(Code(frame.kind), frame.channel, frame.payload) == Ok(frame)
  {
  }

  /** A frame after noise is taken whole. */
  lemma {:induction false} TurnTakesFrame(noise: seq<byte>, frame: Frame, more: seq<byte>)
    requires |frame.payload| <= MAX_PAYLOAD
    requires forall i: nat :: !SyncAt(noise, i)
    ensures TakeTurn(noise + Encode(frame).value + more) == Yield(Ok(frame), more)
  {
    hide Layout, Candidate, TakeTurn;
    var e := Encode(frame).value;
    var b := e + more;
    LayoutIsTaken(Code(frame.kind), frame.channel, frame.payload, more);
    CodeIsKnown(frame);
    TurnAtSync(b);
    assert noise + b == noise + e + more;
    assert forall i: nat | i + 1 < |noise| :: SyncAt(noise + b, i) == SyncAt(noise, i);
    TurnSkips(noise, b);
  }

  /** Frames with noise before, between and after them. */
  function Stream(noise: seq<seq<byte>>, frames: seq<Frame>): seq<byte>
    requires |noise| == |frames| + 1
    requires forall f | f in frames :: |f.payload| <= MAX_PAYLOAD
  {
    if frames == [] then noise[0]
    else noise[0] + Encode(frames[0]).value + Stream(noise[1..], frames[1..])
  }

  function Oks(frames: seq<Frame>): seq<Decoded> {
    seq(|frames|, i requires 0 <= i < |frames| => Ok(frames[i]))
  }

  /** Exactly the frames come back, in order and without an error. */
  lemma {:induction false} RoundTrip(noise: seq<seq<byte>>, frames: seq<Frame>)
    requires |noise| == |frames| + 1
    requires forall f | f in frames :: |f.payload| <= MAX_PAYLOAD
    requires forall s, i: nat | s in noise :: !SyncAt(s, i)
    ensures Drain(Stream(noise, frames)).results == Oks(frames)
    ensures |Drain(Stream(noise, frames)).rest| <= 1
    decreases |frames|
  {
    hide Drain, Candidate, Encode;
    DrainStep(Stream(noise, frames));
    if frames == [] {
      assert noise[0] in noise;
      assert forall i: nat :: !SyncAt(noise[0], i);
    } else {
      assert noise[0] in noise && frames[0] in frames;
      TurnTakesFrame(noise[0], frames[0], Stream(noise[1..], frames[1..]));
      RoundTrip(noise[1..], frames[1..]);
      hide TakeTurn;
      assert Oks(frames) == [Ok(frames[0])] + Oks(frames[1..]);
    }
  }

  /** Every frame the decoder delivers is, byte for byte, the encoding of that frame. */
  lemma {:induction false} CandidateIsEncoding(b: seq<byte>)
    requires SyncAt(b, 0) && Candidate(b).Yield? && Candidate(b).result.Ok?
    ensures Encode(Candidate(b).result.value).Ok?
    ensures b == Encode(Candidate(b).result.value).value + Candidate(b).rest
  {
    hide Checksum;
    var f := Candidate(b).result.value;
    var n := U16(b[5], b[6]);
    assert |f.payload| == n && n % 256 == b[5] && n / 256 == b[6];
    assert b[2..7 + n] == [VERSION, Code(f.kind), f.channel, n % 256, n / 256] + f.payload;
    assert b == b[..2] + b[2..7 + n] + [b[7 + n]] + b[8 + n..];
  }

  // ----- The decoder object -----

  class Decoder {
    var buffer: seq<byte>
    // All bytes read, and all results given, since the last clear.
    ghost var fed: seq<byte>
    ghost var given: seq<Decoded>

    ghost predicate Valid()
      reads this
    {
      Drain(fed) == Drained(given, buffer)
    }

    constructor ()
      ensures Valid() && fed == [] && given == [] && buffer == []
    {
      buffer, fed, given := [], [], [];
    }

    method Clear()
      modifies this
      ensures Valid() && fed == [] && given == [] && buffer == []
    {
      buffer, fed, given := [], [], [];
    }

    /** Decide the candidate at the front of the buffer, or leave it until more is read. */
    method Judge() returns (result: Option<Decoded>)
      requires SyncAt(buffer, 0)
      modifies this`buffer
      ensures match Candidate(old(buffer))
              case Hold(_) => result == None && buffer == old(buffer)
              case Yield(decoded, rest) => result == Some(decoded) && buffer == rest
    {
      if |buffer| < 7 {
        return None;
      }
      if buffer[2] != VERSION {
        result := Some(Err(BadVersion(buffer[2])));
        buffer := buffer[1..];
        return;
      }
      var length := U16(buffer[5], buffer[6]);
      if length > MAX_PAYLOAD {
        result := Some(Err(PayloadTooLong(length)));
        buffer := buffer[1..];
        return;
      }
      var frameLen := 8 + length;
      if |buffer| < frameLen {
        return None;
      }
      var expected := Checksum(buffer[2..frameLen - 1]);
      if buffer[frameLen - 1] != expected {
        result := Some(Err(BadChecksum));
        buffer := buffer[1..];
        return;
      }
      match TryFrom(buffer[3]) {
        case Some(kind) =>
          result := Some(Ok(Frame(kind, buffer[4], buffer[7..frameLen - 1])));
        case None =>
          result := Some(Err(UnknownType(buffer[3])));
      }
      buffer := buffer[frameLen..];
    }

    method Push(input: seq<byte>) returns (output: seq<Decoded>)
      requires Valid()
      modifies this
      ensures Valid()
      ensures fed == old(fed) + input && given == old(given) + output
      ensures Drained(output, buffer) == Drain(old(buffer) + input)
      ensures |buffer| <= MAX_HELD
    {
      hide Drain, Candidate;
      buffer := buffer + input;
      output := [];
      while true
        invariant Drain(old(buffer) + input) ==
                  Drained(output + Drain(buffer).results, Drain(buffer).rest)
        invariant fed == old(fed) && given == old(given)
        decreases |buffer|
      {
        TurnProgress(Drain(old(buffer) + input), output, buffer);
        match FirstSync(buffer) {
          case None =>
            if |buffer| > 0 && buffer[|buffer| - 1] == SYNC0 {
              buffer := buffer[|buffer| - 1..];
            } else {
              buffer := [];
            }
            break;
          case Some(sync) =>
            buffer := buffer[sync..];
            CandidateHolds(buffer);
            var result := Judge();
            if result == None {
              break;
            }
            output := output + [result.value];
        }
      }
      DrainAppend(fed, input);
      DrainHolds(old(buffer) + input);
      fed, given := fed + input, given + output;
    }
  }
}
