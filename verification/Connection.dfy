/**
  * Negotiation on the serial line (`ConnectionDecoder` of tools/te-rs/src/protocol.rs):
  * plain terminal bytes up to the first HELLO_ACK, framed traffic after it.
  */
module Connection {
  import opened Bytes
  import opened Protocol

  const NEGOTIATION_PAYLOAD: seq<byte> := [0x53, 0x57, 0x54, 0x31]

  const HELLO_ACK: Frame := Frame(HelloAck, 0, NEGOTIATION_PAYLOAD)

  // The encoded acknowledgement, as `AckLiteral` proves.
  const ACK: seq<byte> := [0xa5, 0x5a, 1, 13, 0, 4, 0, 0x53, 0x57, 0x54, 0x31, 0x41]

  lemma {:induction false} AckLiteral()
    ensures Encode(HELLO_ACK) == Ok(ACK)
  {
    hide Checksum, TryFrom;
    var body: seq<byte> := [1, 13, 0, 4, 0, 0x53, 0x57, 0x54, 0x31];
    AckSum(body);
    assert [VERSION, Code(HelloAck), 0, 4, 0] + NEGOTIATION_PAYLOAD == body;
    assert Encode(HELLO_ACK).value == [SYNC0, SYNC1] + body + [0x41];
    assert [SYNC0, SYNC1] + body + [0x41] == ACK;
  }

  lemma {:induction false} AckSum(body: seq<byte>)
    requires body == [1, 13, 0, 4, 0, 0x53, 0x57, 0x54, 0x31]
    ensures Checksum(body) == 0x41
  {
    hide Checksum;
    AckSumOfHeader(body);
    ChecksumSteps(body, 6);
    ChecksumSteps(body, 7);
    ChecksumSteps(body, 8);
    ChecksumSteps(body, 9);
    assert body[..9] == body;
  }

  lemma {:induction false} AckSumOfHeader(body: seq<byte>)
    requires |body| == 9 && body[0] == 1 && body[1] == 13 && body[2] == 0 && body[3] == 4 && body[4] == 0
    ensures Checksum(body[..5]) == 18
  {
    hide Checksum;
    ChecksumSteps(body, 1);
    ChecksumSteps(body, 2);
    ChecksumSteps(body, 3);
    ChecksumSteps(body, 4);
    ChecksumSteps(body, 5);
  }

  lemma {:induction false} ChecksumSteps(s: seq<byte>, n: nat)
    requires 0 < n <= |s|
    ensures Checksum(s[..0]) == 0
    ensures Checksum(s[..n]) == (Checksum(s[..n - 1]) + s[n - 1]) % 256
  {
    assert s[..n][..n - 1] == s[..n - 1];
  }

  // ----- The longest suffix that may still become the pattern -----

  predicate SuffixIsPrefix(bytes: seq<byte>, prefix: seq<byte>, length: nat) {
    && length <= |bytes| && length <= |prefix|
    && bytes[|bytes| - length..] == prefix[..length]
  }

  /** The longest proper prefix of `prefix` that `bytes` ends with. */
  function LongestSuffixPrefix(bytes: seq<byte>, prefix: seq<byte>): (r: nat)
    requires prefix != []
    ensures r < |prefix| && SuffixIsPrefix(bytes, prefix, r)
    ensures forall k: nat | r < k < |prefix| :: !SuffixIsPrefix(bytes, prefix, k)
  {
    var limit := if |bytes| < |prefix| - 1 then |bytes| else |prefix| - 1;
    LongestUpTo(bytes, prefix, limit)
  }

  function LongestUpTo(bytes: seq<byte>, prefix: seq<byte>, limit: nat): (r: nat)
    requires limit <= |bytes| && limit < |prefix|
    ensures r <= limit && SuffixIsPrefix(bytes, prefix, r)
    ensures forall k: nat | r < k <= limit :: !SuffixIsPrefix(bytes, prefix, k)
  {
    if limit == 0 || SuffixIsPrefix(bytes, prefix, limit) then limit
    else LongestUpTo(bytes, prefix, limit - 1)
  }

  /** No occurrence can begin in bytes that have been let go. */
  lemma {:induction false} NothingStraddles(w: seq<byte>, x: seq<byte>, pattern: seq<byte>, i: nat)
    requires pattern != []
    requires forall k: nat :: !OccursAt(w, pattern, k)
    requires OccursAt(w + x, pattern, i)
    ensures i >= |w| - LongestSuffixPrefix(w, pattern)
  {
    if i + |pattern| <= |w| {
      assert (w + x)[i..i + |pattern|] == w[i..i + |pattern|];
      assert OccursAt(w, pattern, i);
    } else if i < |w| {
      var length := |w| - i;
      assert w[i..] == (w + x)[i..i + |pattern|][..length];
      assert SuffixIsPrefix(w, pattern, length);
    }
  }

  /** Looking only at the held bytes and the new ones finds what the whole stream would show. */
  lemma {:induction false} HeldIsEnough(w: seq<byte>, x: seq<byte>, pattern: seq<byte>)
    requires pattern != []
    requires forall k: nat :: !OccursAt(w, pattern, k)
    ensures var gone := |w| - LongestSuffixPrefix(w, pattern);
            && FirstOccurrence(w + x, pattern) ==
               (match FirstOccurrence(w[gone..] + x, pattern)
                case None => None
                case Some(i) => Some(gone + i))
            && LongestSuffixPrefix(w + x, pattern) == LongestSuffixPrefix(w[gone..] + x, pattern)
  {
    hide FirstOccurrence, LongestSuffixPrefix;
    var gone := |w| - LongestSuffixPrefix(w, pattern);
    SuffixesAgree(w, x, pattern);
    assert w[gone..] + x == (w + x)[gone..];
    forall i: nat | OccursAt(w + x, pattern, i)
      ensures i >= gone
    {
      NothingStraddles(w, x, pattern, i);
    }
    DropsAgree(w + x, gone, pattern);
  }

  lemma {:induction false} DropsAgree(s: seq<byte>, gone: nat, pattern: seq<byte>)
    requires gone <= |s|
    requires forall i: nat :: OccursAt(s, pattern, i) ==> i >= gone
    ensures FirstOccurrence(s, pattern) == match FirstOccurrence(s[gone..], pattern)
                                           case None => None
                                           case Some(i) => Some(gone + i)
  {
    hide FirstOccurrence;
    var h := s[gone..];
    forall i: nat
      ensures OccursAt(h, pattern, i) == OccursAt(s, pattern, gone + i)
    {
      if gone + i + |pattern| <= |s| { SliceOfSlice(s, gone, |s|, i, i + |pattern|); }
    }
    match FirstOccurrence(s, pattern)
    case None =>
    case Some(i) => assert OccursAt(h, pattern, i - gone);
  }

  /** Reading `x` lengthens the matched suffix by at most the length of `x`. */
  lemma {:induction false} SuffixGrowth(w: seq<byte>, x: seq<byte>, pattern: seq<byte>)
    requires pattern != []
    ensures LongestSuffixPrefix(w + x, pattern) <= LongestSuffixPrefix(w, pattern) + |x|
  {
    var s, r := w + x, LongestSuffixPrefix(w + x, pattern);
    if r > |x| {
      var k := r - |x|;
      assert w[|w| - k..] == s[|s| - r..][..k] == pattern[..k];
      assert SuffixIsPrefix(w, pattern, k);
    }
  }

  lemma {:induction false} SuffixesAgree(w: seq<byte>, x: seq<byte>, pattern: seq<byte>)
    requires pattern != []
    ensures var gone := |w| - LongestSuffixPrefix(w, pattern);
            LongestSuffixPrefix(w + x, pattern) == LongestSuffixPrefix(w[gone..] + x, pattern)
  {
    var held := LongestSuffixPrefix(w, pattern);
    var gone := |w| - held;
    var s, h := w + x, w[gone..] + x;
    assert h == s[gone..];
    forall k: nat | k <= |h| && k < |pattern|
      ensures SuffixIsPrefix(h, pattern, k) == SuffixIsPrefix(s, pattern, k)
    {
      assert h[|h| - k..] == s[|s| - k..];
    }
    SuffixGrowth(w, x, pattern);
  }

  // ----- The whole-stream rule -----

  datatype View =
    | PlainView(shown: seq<byte>, held: seq<byte>)
    | FramedView(shown: seq<byte>, from: nat, results: seq<Decoded>, held: seq<byte>)

  /** What the stream `w` amounts to, read in one piece. */
  function Observe(w: seq<byte>): View {
    match FirstOccurrence(w, ACK)
    case None =>
      var kept := LongestSuffixPrefix(w, ACK);
      PlainView(w[..|w| - kept], w[|w| - kept..])
    case Some(i) =>
      var d := Drain(w[i + |ACK|..]);
      FramedView(w[..i], i + |ACK|, d.results, d.rest)
  }

  datatype StreamItem = Plain(bytes: seq<byte>) | FrameItem(frame: Frame) | ErrorItem(error: DecodeError)

  function ToItem(result: Decoded): StreamItem {
    match result
    case Ok(frame) => FrameItem(frame)
    case Err(error) => ErrorItem(error)
  }

  function ToItems(results: seq<Decoded>): seq<StreamItem> {
    seq(|results|, i requires 0 <= i < |results| => ToItem(results[i]))
  }

  /** Output without the accident of how plain bytes were grouped: one item per plain byte. */
  function Flatten(items: seq<StreamItem>): seq<StreamItem> {
    if items == [] then []
    else (if items[0].Plain? then Singles(items[0].bytes) else [items[0]]) + Flatten(items[1..])
  }

  function Singles(bytes: seq<byte>): seq<StreamItem> {
    seq(|bytes|, i requires 0 <= i < |bytes| => Plain([bytes[i]]))
  }

  /** The plain bytes, then the acknowledgement, then the decoder's results. */
  function Delivered(view: View): seq<StreamItem> {
    match view
    case PlainView(shown, _) => Singles(shown)
    case FramedView(shown, _, results, _) => Singles(shown) + [FrameItem(HELLO_ACK)] + ToItems(results)
  }

  lemma {:induction false} FlattenAppend(a: seq<StreamItem>, b: seq<StreamItem>)
    ensures Flatten(a + b) == Flatten(a) + Flatten(b)
  {
    if a == [] {
      assert a + b == b;
    } else {
      assert (a + b)[1..] == a[1..] + b;
      FlattenAppend(a[1..], b);
    }
  }

  lemma {:induction false} FlattenResults(results: seq<Decoded>)
    ensures Flatten(ToItems(results)) == ToItems(results)
  {
    if results != [] {
      assert ToItems(results)[1..] == ToItems(results[1..]);
      FlattenResults(results[1..]);
    }
  }

  lemma {:induction false} SinglesAppend(a: seq<byte>, b: seq<byte>)
    ensures Singles(a + b) == Singles(a) + Singles(b)
  {
  }

  /** A plain chunk is reported only when it is not empty. */
  function Chunk(bytes: seq<byte>): seq<StreamItem> {
    if bytes == [] then [] else [Plain(bytes)]
  }

  lemma {:induction false} FlattenChunk(emitted: seq<StreamItem>, chunk: seq<byte>)
    ensures Flatten(emitted + Chunk(chunk)) == Flatten(emitted) + Singles(chunk)
  {
    FlattenAppend(emitted, Chunk(chunk));
    if chunk != [] { FlattenOne(Plain(chunk)); }
  }

  lemma {:induction false} FlattenOne(item: StreamItem)
    ensures Flatten([item]) == if item.Plain? then Singles(item.bytes) else [item]
  {
    assert [item][1..] == [];
  }

  /** The acknowledgement does not overlap itself: 0xa5 is only its first byte. */
  lemma {:induction false} NoOverlap(banner: seq<byte>, tail: seq<byte>, i: nat)
    requires i < |banner| && OccursAt(banner + ACK + tail, ACK, i)
    ensures OccursAt(banner, ACK, i)
  {
    var w := banner + ACK + tail;
    assert w[|banner|] == ACK[0];
    assert i + |ACK| <= |banner|;
    assert w[i..i + |ACK|] == banner[i..i + |ACK|];
  }

  /** Plain bytes without the acknowledgement, then it, then frames: nothing else comes out. */
  lemma {:induction false} Negotiated(banner: seq<byte>, noise: seq<seq<byte>>, frames: seq<Frame>)
    requires forall i: nat :: !OccursAt(banner, ACK, i)
    requires |noise| == |frames| + 1
    requires forall f | f in frames :: |f.payload| <= MAX_PAYLOAD
    requires forall s, i: nat | s in noise :: !SyncAt(s, i)
    ensures var view := Observe(banner + ACK + Stream(noise, frames));
            view.FramedView? && view.shown == banner && view.results == Oks(frames)
  {
    hide Drain, Stream;
    var ack, tail := ACK, Stream(noise, frames);
    var w := banner + ack + tail;
    assert w[|banner|..|banner| + |ack|] == ack;
    assert OccursAt(w, ack, |banner|);
    var i := FirstOccurrence(w, ack).value;
    if i < |banner| {
      NoOverlap(banner, tail, i);
    }
    assert w[|banner| + |ack|..] == tail;
    RoundTrip(noise, frames);
  }

  /** What is wrong with a complete candidate, read from its bytes; None when nothing is. */
  function Trouble(c: seq<byte>): Option<DecodeError>
    requires |c| >= 7
  {
    var length := c[5] as int + 256 * c[6] as int;
    if c[2] != 1 then Some(BadVersion(c[2]))
    else if length > 1024 then Some(PayloadTooLong(length))
    else if |c| < 8 + length then None
    else if c[7 + length] != Checksum(c[2..7 + length]) then Some(BadChecksum)
    else if !(1 <= c[3] <= 13) then Some(UnknownType(c[3]))
    else None
  }

  /** A corrupt candidate after the acknowledgement, with no other sync pair in it, is reported as one error item. */
  lemma {:induction false} CorruptIsReported(banner: seq<byte>, c: seq<byte>)
    requires forall i: nat :: !OccursAt(banner, ACK, i)
    requires |c| >= 7 && c[0] == 0xa5 && c[1] == 0x5a && forall i: nat | i > 0 :: !SyncAt(c, i)
    requires Trouble(c).Some?
    requires c[2] == 1 && c[5] as int + 256 * c[6] as int <= 1024 ==> |c| == 8 + c[5] as int + 256 * c[6] as int
    ensures Delivered(Observe(banner + ACK + c))
            == Singles(banner) + [FrameItem(HELLO_ACK), ErrorItem(Trouble(c).value)]
  {
    hide Drain, Checksum;
    var w := banner + ACK + c;
    OneError(c);
    assert w[|banner|..|banner| + |ACK|] == ACK;
    assert OccursAt(w, ACK, |banner|);
    var i := FirstOccurrence(w, ACK).value;
    if i < |banner| {
      NoOverlap(banner, c, i);
    }
    assert w[|banner| + |ACK|..] == c && w[..|banner|] == banner;
    assert ToItems([Err(Trouble(c).value)]) == [ErrorItem(Trouble(c).value)];
    assert Singles(banner) + [FrameItem(HELLO_ACK)] + [ErrorItem(Trouble(c).value)]
           == Singles(banner) + [FrameItem(HELLO_ACK), ErrorItem(Trouble(c).value)];
  }

  lemma {:induction false} OneError(c: seq<byte>)
    requires |c| >= 7 && c[0] == 0xa5 && c[1] == 0x5a && forall i: nat | i > 0 :: !SyncAt(c, i)
    requires Trouble(c).Some?
    requires c[2] == 1 && c[5] as int + 256 * c[6] as int <= 1024 ==> |c| == 8 + c[5] as int + 256 * c[6] as int
    ensures Drain(c).results == [Err(Trouble(c).value)]
  {
    hide Drain, Checksum, TakeTurn;
    assert SyncAt(c, 0);
    TurnAtSync(c);
    DrainStep(c);
    var rest := Candidate(c).rest;
    NoSyncAfter(c, rest);
    DrainStep(rest);
  }

  lemma {:induction false} NoSyncAfter(c: seq<byte>, rest: seq<byte>)
    requires c != [] && (forall i: nat | i > 0 :: !SyncAt(c, i))
    requires rest == c[1..] || rest == []
    ensures TakeTurn(rest).Hold?
  {
    assert forall i: nat :: SyncAt(c[1..], i) ==> SyncAt(c, i + 1);
  }

  /** While plain, what was shown and what is held back make up the whole stream. */
  lemma {:induction false} NothingLost(w: seq<byte>)
    requires Observe(w).PlainView?
    ensures w == Observe(w).shown + Observe(w).held
    ensures |Observe(w).held| < |ACK| && Observe(w).held == ACK[..|Observe(w).held|]
    ensures forall i: nat :: !OccursAt(w, ACK, i)
  {
    hide Drain;
  }

  /** More bytes in plain mode, and still no acknowledgement. */
  lemma {:induction false} PlainStays(w: seq<byte>, x: seq<byte>)
    requires Observe(w).PlainView?
    requires FirstOccurrence(Observe(w).held + x, ACK) == None
    ensures var p := Observe(w).held + x;
            var n := |p| - LongestSuffixPrefix(p, ACK);
            Observe(w + x) == PlainView(Observe(w).shown + p[..n], p[n..])
  {
    hide Drain, FirstOccurrence, LongestSuffixPrefix;
    NothingLost(w);
    HeldIsEnough(w, x, ACK);
    var p := Observe(w).held + x;
    assert w + x == Observe(w).shown + p;
  }

  lemma {:induction false} TakeFromSecond(a: seq<byte>, b: seq<byte>, n: nat)
    requires n <= |b|
    ensures (a + b)[..|a| + n] == a + b[..n] && a + b == (a + b[..n]) + b[n..]
  {
  }

  lemma {:induction false} PlainParts(w: seq<byte>)
    requires Observe(w).PlainView?
    ensures var gone := |w| - LongestSuffixPrefix(w, ACK);
            Observe(w).shown == w[..gone] && Observe(w).held == w[gone..]
  {
    hide Drain, FirstOccurrence, LongestSuffixPrefix;
  }

  /** More bytes in plain mode complete the acknowledgement: up to it, the stream is framed. */
  lemma {:induction false} PlainEnds(w: seq<byte>, x: seq<byte>, i: nat)
    requires Observe(w).PlainView?
    requires FirstOccurrence(Observe(w).held + x, ACK) == Some(i)
    ensures var p := Observe(w).held + x;
            var upTo := Observe(w).shown + p[..i + |ACK|];
            && Observe(upTo) == FramedView(Observe(w).shown + p[..i], |upTo|, [], [])
            && w + x == upTo + p[i + |ACK|..]
  {
    hide Drain, FirstOccurrence, LongestSuffixPrefix, Observe;
    NothingLost(w);
    PlainParts(w);
    HeldIsEnough(w, x, ACK);
    var shown, p := Observe(w).shown, Observe(w).held + x;
    assert w + x == shown + p;
    TakeFromSecond(shown, p, i);
    TakeFromSecond(shown, p, i + |ACK|);
    AckEnds(w + x, |shown| + i);
  }

  /** Once framed, everything further goes to the frame decoder. */
  lemma {:induction false} FramedGrows(w: seq<byte>, x: seq<byte>)
    requires Observe(w).FramedView?
    ensures var from := Observe(w).from;
            && from <= |w| && (w + x)[from..] == w[from..] + x
            && Observe(w + x) == FramedView(Observe(w).shown, from,
                                            Drain(w[from..] + x).results, Drain(w[from..] + x).rest)
  {
    hide Drain;
    var i := FirstOccurrence(w, ACK).value;
    assert forall k: nat {:trigger OccursAt(w, ACK, k)} | k <= i ::
        (w + x)[k..k + |ACK|] == w[k..k + |ACK|];
    assert OccursAt(w + x, ACK, i);
    forall k: nat | k < i
      ensures !OccursAt(w + x, ACK, k)
    {
      assert !OccursAt(w, ACK, k);
    }
    assert (w + x)[..i] == w[..i];
    assert (w + x)[i + |ACK|..] == w[i + |ACK|..] + x;
  }

  // What each kind of read gives out completes what the whole stream owes.

  ghost predicate Accounts(emitted: seq<StreamItem>, w: seq<byte>) {
    Flatten(emitted) == Delivered(Observe(w))
  }

  lemma {:induction false} AccountsNothing(w: seq<byte>)
    requires w == []
    ensures Accounts([], w) && Observe(w) == PlainView([], [])
  {
    hide Drain;
  }

  lemma {:induction false} AccountsStays(emitted: seq<StreamItem>, w: seq<byte>, x: seq<byte>)
    requires Accounts(emitted, w) && Observe(w).PlainView?
    requires FirstOccurrence(Observe(w).held + x, ACK) == None
    ensures var p := Observe(w).held + x;
            Accounts(emitted + Chunk(p[..|p| - LongestSuffixPrefix(p, ACK)]), w + x)
  {
    hide Observe, Flatten, FirstOccurrence, LongestSuffixPrefix;
    PlainStays(w, x);
    var p := Observe(w).held + x;
    var chunk := p[..|p| - LongestSuffixPrefix(p, ACK)];
    FlattenChunk(emitted, chunk);
    SinglesAppend(Observe(w).shown, chunk);
  }

  lemma {:induction false} AccountsEnds(emitted: seq<StreamItem>, w: seq<byte>, x: seq<byte>, i: nat)
    requires Accounts(emitted, w) && Observe(w).PlainView?
    requires FirstOccurrence(Observe(w).held + x, ACK) == Some(i)
    ensures var p := Observe(w).held + x;
            Accounts(emitted + Chunk(p[..i]) + [FrameItem(HELLO_ACK)],
                     Observe(w).shown + p[..i + |ACK|])
  {
    hide Observe, Flatten, FirstOccurrence;
    PlainEnds(w, x, i);
    var p := Observe(w).held + x;
    FlattenChunk(emitted, p[..i]);
    FlattenOne(FrameItem(HELLO_ACK));
    FlattenAppend(emitted + Chunk(p[..i]), [FrameItem(HELLO_ACK)]);
    SinglesAppend(Observe(w).shown, p[..i]);
  }

  lemma {:induction false} AccountsFramed(emitted: seq<StreamItem>, w: seq<byte>, x: seq<byte>, results: seq<Decoded>)
    requires Accounts(emitted, w) && Observe(w).FramedView?
    requires Observe(w + x) == Observe(w).(results := Observe(w).results + results,
                                           held := Observe(w + x).held)
    ensures Accounts(emitted + ToItems(results), w + x)
  {
    hide Observe, Flatten;
    FlattenAppend(emitted, ToItems(results));
    FlattenResults(results);
    assert ToItems(Observe(w).results + results) == ToItems(Observe(w).results) + ToItems(results);
  }

  /** Cut right after its first acknowledgement, the stream has just become framed. */
  lemma {:induction false} AckEnds(w: seq<byte>, i: nat)
    requires FirstOccurrence(w, ACK) == Some(i)
    ensures Observe(w[..i + |ACK|]) == FramedView(w[..i], i + |ACK|, [], [])
  {
    var v := w[..i + |ACK|];
    assert forall k: nat {:trigger OccursAt(w, ACK, k)} | k <= i ::
        v[k..k + |ACK|] == w[k..k + |ACK|];
    assert OccursAt(v, ACK, i);
    forall k: nat | k < i
      ensures !OccursAt(v, ACK, k)
    {
      assert !OccursAt(w, ACK, k);
    }
    assert v[i + |ACK|..] == [] && v[..i] == w[..i];
    DrainNothing(v[i + |ACK|..]);
    hide Drain;
  }

  lemma {:induction false} AckAlone()
    ensures Observe(ACK) == FramedView([], |ACK|, [], [])
  {
    hide Drain;
    assert ACK[0..0 + |ACK|] == ACK;
    assert OccursAt(ACK, ACK, 0);
    AckEnds(ACK, 0);
    assert ACK[..|ACK|] == ACK;
  }

  // ----- The decoder object -----

  datatype Mode = PlainMode | FramedMode

  class ConnectionDecoder {
    var mode: Mode
    var pending: seq<byte>
    const framed: Decoder
    // Everything read and everything given out since the connection (re)started.
    ghost var stream: seq<byte>
    ghost var emitted: seq<StreamItem>

    ghost predicate Valid()
      reads this, framed
    {
      && framed.Valid()
      && Accounts(emitted, stream)
      && match Observe(stream)
         case PlainView(_, held) => mode == PlainMode && pending == held && framed.fed == []
         case FramedView(_, from, results, held) =>
           mode == FramedMode && pending == [] && framed.given == results && framed.buffer == held
           && from <= |stream| && framed.fed == stream[from..]
    }

    constructor ()
      ensures Valid() && fresh(framed) && stream == [] && emitted == []
    {
      hide Observe, Accounts, Drain;
      mode, pending := PlainMode, [];
      framed := new Decoder();
      stream, emitted := [], [];
      new;
      AccountsNothing(stream);
    }

    /** A read after the acknowledgement. */
    method PushFramed(input: seq<byte>) returns (output: seq<StreamItem>)
      requires Valid() && mode == FramedMode
      modifies this, framed
      ensures Valid() && mode == FramedMode
      ensures stream == old(stream) + input && emitted == old(emitted) + output
      ensures forall item | item in output :: !item.Plain?
    {
      hide Drain, Observe, Accounts;
      FramedGrows(stream, input);
      DrainAppend(framed.fed, input);
      var results := framed.Push(input);
      output := ToItems(results);
      AccountsFramed(emitted, stream, input, results);
      stream, emitted := stream + input, emitted + output;
    }

    method Push(input: seq<byte>) returns (output: seq<StreamItem>)
      requires Valid()
      modifies this, framed
      ensures Valid()
      ensures stream == old(stream) + input && emitted == old(emitted) + output
      ensures forall item | item in output :: item.Plain? ==> item.bytes != []
    {
      hide Drain, Observe, Accounts, FirstOccurrence, LongestSuffixPrefix;
      ghost var shown := Observe(stream).shown;
      if mode == FramedMode {
        output := PushFramed(input);
        return;
      }
      pending := pending + input;
      ghost var whole := pending;
      output := [];
      match FirstOccurrence(pending, ACK) {
        case Some(position) =>
          PlainEnds(stream, input, position);
          AccountsEnds(emitted, stream, input, position);
          if position != 0 {
            output := output + [Plain(pending[..position])];
          }
          output := output + [FrameItem(HELLO_ACK)];
          var trailing := pending[position + |ACK|..];
          pending := [];
          mode := FramedMode;
          DrainNothing(framed.fed);
          assert emitted + output == emitted + Chunk(whole[..position]) + [FrameItem(HELLO_ACK)];
          stream, emitted := shown + whole[..position + |ACK|], emitted + output;
          var more := PushFramed(trailing);
          output := output + more;
          assert emitted == old(emitted) + output;
        case None =>
          PlainStays(stream, input);
          AccountsStays(emitted, stream, input);
          var retained := LongestSuffixPrefix(pending, ACK);
          var plainLength := |pending| - retained;
          if plainLength != 0 {
            output := output + [Plain(pending[..plainLength])];
            pending := pending[plainLength..];
          }
          assert output == Chunk(whole[..plainLength]);
          stream, emitted := stream + input, emitted + output;
      }
    }

    /** Drop a partial frame; a finished negotiation stays finished. */
    method Resynchronize()
      requires Valid()
      modifies this, framed
      ensures Valid() && mode == old(mode)
      ensures stream == (if mode == FramedMode then ACK else [])
      ensures Flatten(emitted) == if mode == FramedMode then [FrameItem(HELLO_ACK)] else []
    {
      hide Drain, Observe;
      pending := [];
      framed.Clear();
      if mode == FramedMode {
        stream, emitted := ACK, [FrameItem(HELLO_ACK)];
        AckAlone();
        FlattenOne(FrameItem(HELLO_ACK));
      } else {
        stream, emitted := [], [];
        AccountsNothing(stream);
      }
    }

    /** Back to plain mode; held plain bytes are given out, not lost. */
    method Disconnect() returns (output: seq<StreamItem>)
      requires Valid()
      modifies this, framed
      ensures Valid() && mode == PlainMode && stream == [] && emitted == []
      ensures old(mode) == PlainMode ==>
                Flatten(old(emitted)) + Flatten(output) == Singles(old(stream))
      ensures old(mode) == FramedMode ==> output == []
    {
      hide Drain, Observe;
      if pending == [] {
        output := [];
      } else {
        output := [Plain(pending)];
        pending := [];
      }
      if mode == PlainMode {
        NothingLost(stream);
        SinglesAppend(Observe(stream).shown, Observe(stream).held);
        if output != [] { FlattenOne(output[0]); }
      }
      mode := PlainMode;
      framed.Clear();
      stream, emitted := [], [];
      AccountsNothing(stream);
    }
  }

}
