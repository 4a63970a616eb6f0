/**
  * Assembly of resource snapshots from records (tools/te-rs/src/resource.rs). A run of records
  * publishes exactly what the last record of each kind and endpoint says, counting only the
  * records of the generation that was begun last.
  */
module Snapshot {
  import opened Bytes

  const BEGIN: byte := 1
  const MEMORY: byte := 2
  const PROCESS: byte := 3
  const PROCESS_IO: byte := 4
  const END: byte := 5
  const PREEMPTION: byte := 6

  type Payload = seq<byte>

  datatype Memory = Memory(
    current: nat, peak: nat, kernelStackPeak: nat, allocationFailures: nat,
    usedSlots: nat, totalSlots: nat, heapCurrent: nat, heapPeak: nat)

  datatype Process = Process(
    endpoint: nat, state: nat, blocked: nat, stackWords: nat, stateWords: nat,
    dispatches: nat, yielded: nat, forcedPreemptions: nat, cpuProgress: nat,
    ipc: nat, ttyIn: nat, ttyOut: nat, name: seq<byte>)

  datatype Resources = Resources(
    generation: byte, memory: Memory, processes: map<byte, Process>,
    protocolErrors: nat, uartRx: nat, uartTx: nat)

  function Empty(generation: byte): Resources {
    Resources(generation, Memory(0, 0, 0, 0, 0, 0, 0, 0), map[], 0, 0, 0)
  }

  function NoProcess(endpoint: nat): Process {
    Process(endpoint, 0, 0, 0, 0, 0, 0, 0, 0, 0, 0, 0, [])
  }

  /** A little-endian 24-bit number at `at`. */
  function U24(s: seq<byte>, at: nat): nat
    requires at + 3 <= |s|
  {
    s[at] as int + 256 * s[at + 1] as int + 65536 * s[at + 2] as int
  }

  // ----- One record -----

  predicate IsBegin(p: Payload) {
    |p| >= 2 && p[0] == BEGIN
  }

  predicate IsEnd(p: Payload, generation: byte) {
    |p| == 11 && p[0] == END && p[1] == generation
  }

  /** A record with figures: its kind and length are known. The body starts at index 2. */
  predicate WellFormed(p: Payload) {
    && |p| >= 2
    && (|| (p[0] == MEMORY && (|p| == 16 || |p| == 22))
        || (p[0] == PROCESS && |p| == 15)
        || (p[0] == PROCESS_IO && (|p| == 16 || |p| == 20))
        || (p[0] == PREEMPTION && |p| == 9))
  }

  predicate Counts(p: Payload, generation: byte) {
    WellFormed(p) && p[1] == generation
  }

  function MemoryOf(p: Payload): Memory
    requires WellFormed(p) && p[0] == MEMORY
  {
    Memory(U24(p, 2), U24(p, 5), U24(p, 8), U24(p, 11), p[14], p[15],
           if |p| == 22 then U24(p, 16) else 0, if |p| == 22 then U24(p, 19) else 0)
  }

  /** Each kind of process record sets its own fields of a row. */
  function SetFields(row: Process, p: Payload): Process
    requires WellFormed(p) && p[0] != MEMORY
  {
    if p[0] == PROCESS then
      row.(endpoint := p[2], state := p[3], blocked := p[4], stackWords := U16(p[5], p[6]),
           stateWords := U16(p[7], p[8]), dispatches := U24(p, 9), yielded := U24(p, 12))
    else if p[0] == PROCESS_IO then
      row.(endpoint := p[2], ipc := U24(p, 3), ttyIn := U24(p, 6), ttyOut := U24(p, 9), name := UpToNul(p[12..]))
    else
      row.(endpoint := p[2], forcedPreemptions := U24(p, 3), cpuProgress := U24(p, 6))
  }

  function Apply(s: Resources, p: Payload): Resources
    requires WellFormed(p)
  {
    if p[0] == MEMORY then s.(memory := MemoryOf(p))
    else
      var row := if p[2] in s.processes then s.processes[p[2]] else NoProcess(0);
      s.(processes := s.processes[p[2] := SetFields(row, p)])
  }

  function Close(s: Resources, p: Payload): Resources
    requires IsEnd(p, s.generation)
  {
    s.(protocolErrors := U24(p, 2), uartRx := U24(p, 5), uartTx := U24(p, 8))
  }

  datatype State = State(pending: Option<Resources>, current: Option<Resources>)

  /** One payload: the new state, and whether a snapshot was published. */
  function Step(s: State, p: Payload): (State, bool) {
    if |p| < 2 then (s, false)
    else if p[0] == BEGIN then (s.(pending := Some(Empty(p[1]))), false)
    else if s.pending.None? || s.pending.value.generation != p[1] then (s, false)
    else if WellFormed(p) then (s.(pending := Some(Apply(s.pending.value, p))), false)
    else if IsEnd(p, p[1]) then (State(None, Some(Close(s.pending.value, p))), true)
    else (s, false)
  }

  /** The state after a whole run. */
  function After(run: seq<Payload>): State {
    if run == [] then State(None, None) else Step(After(run[..|run| - 1]), run[|run| - 1]).0
  }

  // ----- What a generation's records say -----

  /** The records that count for a generation, in order. */
  function Counting(run: seq<Payload>, generation: byte): (r: seq<Payload>)
    ensures forall k | 0 <= k < |r| :: Counts(r[k], generation)
  {
    if run == [] then []
    else
      var front, last := Counting(run[..|run| - 1], generation), run[|run| - 1];
      if Counts(last, generation) then front + [last] else front
  }

  predicate Concerns(p: Payload, kind: byte, endpoint: byte) {
    WellFormed(p) && p[0] == kind && (kind == MEMORY || p[2] == endpoint)
  }

  /** The records of one kind about one endpoint, in order. */
  function Select(records: seq<Payload>, kind: byte, endpoint: byte): (r: seq<Payload>)
    ensures forall k | 0 <= k < |r| :: Concerns(r[k], kind, endpoint)
  {
    if records == [] then []
    else
      var front, last := Select(records[..|records| - 1], kind, endpoint), records[|records| - 1];
      if Concerns(last, kind, endpoint) then front + [last] else front
  }

  function LastOf(records: seq<Payload>, kind: byte, endpoint: byte): (r: Option<Payload>)
    ensures r.Some? ==> Concerns(r.value, kind, endpoint)
  {
    var selected := Select(records, kind, endpoint);
    if selected == [] then None else Some(selected[|selected| - 1])
  }

  predicate Mentioned(records: seq<Payload>, endpoint: byte) {
    || LastOf(records, PROCESS, endpoint).Some?
    || LastOf(records, PROCESS_IO, endpoint).Some?
    || LastOf(records, PREEMPTION, endpoint).Some?
  }

  function Set(row: Process, p: Option<Payload>): Process
    requires p.Some? ==> WellFormed(p.value) && p.value[0] != MEMORY
  {
    if p.Some? then SetFields(row, p.value) else row
  }

  /** A row: the last record of each of the three kinds, over zeros. */
  function Row(records: seq<Payload>, endpoint: byte): Process {
    Set(Set(Set(NoProcess(endpoint), LastOf(records, PROCESS, endpoint)),
            LastOf(records, PROCESS_IO, endpoint)), LastOf(records, PREEMPTION, endpoint))
  }

  /** The snapshot that a generation's records describe. */
  function Described(generation: byte, records: seq<Payload>): Resources {
    var memory := LastOf(records, MEMORY, 0);
    Resources(
      generation,
      if memory.Some? then MemoryOf(memory.value) else Empty(generation).memory,
      map e: byte | 0 <= e < 256 && Mentioned(records, e) :: Row(records, e),
      0, 0, 0)
  }

  lemma {:induction false} LastOfAdded(records: seq<Payload>, p: Payload, kind: byte, endpoint: byte)
    requires WellFormed(p)
    ensures LastOf(records + [p], kind, endpoint)
            == if Concerns(p, kind, endpoint) then Some(p) else LastOf(records, kind, endpoint)
  {
    assert (records + [p])[..|records|] == records;
  }

  lemma {:induction false} RowAdded(records: seq<Payload>, p: Payload, e: byte)
    requires WellFormed(p)
    ensures var all := records + [p];
            if p[0] == MEMORY || p[2] != e then
              (Mentioned(all, e) <==> Mentioned(records, e)) && Row(all, e) == Row(records, e)
            else
              Mentioned(all, e) && Row(all, e) == SetFields(Row(records, e), p)
  {
    LastOfAdded(records, p, PROCESS, e);
    LastOfAdded(records, p, PROCESS_IO, e);
    LastOfAdded(records, p, PREEMPTION, e);
    hide LastOf, U24, UpToNul, U16;
  }

  lemma {:induction false} Unmentioned(records: seq<Payload>, e: byte)
    requires !Mentioned(records, e)
    ensures Row(records, e) == NoProcess(e)
  {
  }

  lemma {:induction false} DescribedAdded(generation: byte, records: seq<Payload>, p: Payload)
    requires Counts(p, generation)
    ensures Described(generation, records + [p]) == Apply(Described(generation, records), p)
  {
    hide Row, SetFields, LastOf, Mentioned;
    var all := records + [p];
    LastOfAdded(records, p, MEMORY, 0);
    forall e: byte
      ensures if p[0] == MEMORY || p[2] != e then
                (Mentioned(all, e) <==> Mentioned(records, e)) && Row(all, e) == Row(records, e)
              else
                Mentioned(all, e) && Row(all, e) == SetFields(Row(records, e), p)
    {
      RowAdded(records, p, e);
    }
    var before := Described(generation, records);
    if p[0] != MEMORY {
      var e := p[2];
      RowAdded(records, p, e);
      if e !in before.processes {
        Unmentioned(records, e);
        FirstRecord(p);
      }
    }
    assert Described(generation, all).processes == Apply(before, p).processes;
  }

  /** The endpoint a new row starts with is overwritten. */
  lemma {:induction false} FirstRecord(p: Payload)
    requires WellFormed(p) && p[0] != MEMORY
    ensures SetFields(NoProcess(0), p) == SetFields(NoProcess(p[2]), p)
  {
  }

  /** For every kind and endpoint, the same records in the same order. */
  predicate SameByKey(a: seq<Payload>, b: seq<Payload>) {
    forall kind: byte, endpoint: byte :: Select(a, kind, endpoint) == Select(b, kind, endpoint)
  }

  /** Only the order within one kind and endpoint matters. */
  lemma {:induction false} OrderAcrossKeys(generation: byte, a: seq<Payload>, b: seq<Payload>)
    requires SameByKey(a, b)
    ensures Described(generation, a) == Described(generation, b)
  {
    forall kind: byte, endpoint: byte
      ensures LastOf(a, kind, endpoint) == LastOf(b, kind, endpoint)
    {
      assert Select(a, kind, endpoint) == Select(b, kind, endpoint);
    }
    assert forall e: byte :: Mentioned(a, e) == Mentioned(b, e) && Row(a, e) == Row(b, e);
  }

  // ----- Whole runs -----

  /** The generation begun at `b` is still open: no later BEGIN, and no END of its own. */
  predicate OpenAt(run: seq<Payload>, b: nat) {
    && b < |run| && IsBegin(run[b])
    && forall i | b < i < |run| :: !IsBegin(run[i]) && !IsEnd(run[i], run[b][1])
  }

  /** Payload `e` publishes the generation begun at `b`. */
  predicate Completes(run: seq<Payload>, b: nat, e: nat) {
    e < |run| && OpenAt(run[..e], b) && IsEnd(run[e], run[b][1])
  }

  lemma {:induction false} OpenShorter(run: seq<Payload>, p: Payload, b: nat)
    ensures OpenAt(run + [p], b) <==>
            if b == |run| then IsBegin(p) else OpenAt(run, b) && !IsBegin(p) && !IsEnd(p, run[b][1])
  {
    var all := run + [p];
    if OpenAt(all, b) && b < |run| {
      forall i | b < i < |run| ensures !IsBegin(run[i]) && !IsEnd(run[i], run[b][1]) {
        assert all[i] == run[i];
      }
      assert all[|run|] == p;
    }
  }

  lemma {:induction false} CountingAdded(run: seq<Payload>, p: Payload, from: nat, generation: byte)
    requires from <= |run|
    ensures Counting((run + [p])[from..], generation)
            == if Counts(p, generation) then Counting(run[from..], generation) + [p]
               else Counting(run[from..], generation)
  {
    var rest := (run + [p])[from..];
    assert rest[..|rest| - 1] == run[from..];
  }

  /** While a generation is open, what is pending is what its records describe. */
  lemma {:induction false} PendingIs(run: seq<Payload>)
    ensures forall b: nat | OpenAt(run, b) ::
              After(run).pending == Some(Described(run[b][1], Counting(run[b + 1..], run[b][1])))
    ensures After(run).pending.Some? ==> exists b: nat :: OpenAt(run, b)
    decreases |run|
  {
    if run != [] {
      var n := |run| - 1;
      var front, p := run[..n], run[n];
      assert run == front + [p];
      PendingIs(front);
      forall b: nat | OpenAt(run, b)
        ensures After(run).pending == Some(Described(run[b][1], Counting(run[b + 1..], run[b][1])))
      {
        OpenShorter(front, p, b);
        PendingAdded(front, p, b);
      }
      if After(run).pending.Some? {
        StillOpen(front, p);
      }
    }
  }

  lemma {:induction false} PendingAdded(front: seq<Payload>, p: Payload, b: nat)
    requires OpenAt(front + [p], b)
    requires OpenAt(front, b) ==>
               After(front).pending == Some(Described(front[b][1], Counting(front[b + 1..], front[b][1])))
    ensures var run := front + [p];
            After(run).pending == Some(Described(run[b][1], Counting(run[b + 1..], run[b][1])))
  {
    hide Described, Apply, Close, Counting;
    var run := front + [p];
    assert run[..|front|] == front;
    OpenShorter(front, p, b);
    if b == |front| {
      assert run[b + 1..] == [];
      NoRecords(p[1]);
    } else {
      var g := front[b][1];
      CountingAdded(front, p, b + 1, g);
      GenerationOf(g, Counting(front[b + 1..], g));
      if Counts(p, g) {
        DescribedAdded(g, Counting(front[b + 1..], g), p);
      }
    }
  }

  lemma {:induction false} NoRecords(g: byte)
    ensures Described(g, Counting([], g)) == Empty(g)
  {
  }

  lemma {:induction false} GenerationOf(g: byte, records: seq<Payload>)
    ensures Described(g, records).generation == g
  {
  }

  lemma {:induction false} StillOpen(front: seq<Payload>, p: Payload)
    requires After(front + [p]).pending.Some?
    requires After(front).pending.Some? ==> exists b: nat :: OpenAt(front, b)
    requires forall b: nat | OpenAt(front, b) ::
               After(front).pending == Some(Described(front[b][1], Counting(front[b + 1..], front[b][1])))
    ensures exists b: nat :: OpenAt(front + [p], b)
  {
    hide Described, Apply, Close, Counting;
    assert (front + [p])[..|front|] == front;
    if IsBegin(p) {
      OpenShorter(front, p, |front|);
    } else {
      var b: nat :| OpenAt(front, b);
      GenerationOf(front[b][1], Counting(front[b + 1..], front[b][1]));
      OpenShorter(front, p, b);
    }
  }

  /** A payload publishes exactly when it completes a generation, and then publishes what the records describe. */
  lemma {:induction false} PublishesWhenComplete(run: seq<Payload>, p: Payload)
    ensures Step(After(run), p).1 <==> exists b: nat :: Completes(run + [p], b, |run|)
    ensures forall b: nat | Completes(run + [p], b, |run|) ::
              After(run + [p]).current == Some(PublishedBy(run + [p], b, |run|))
    ensures !Step(After(run), p).1 ==> After(run + [p]).current == After(run).current
  {
    hide Described, Apply, Close, Counting;
    var all := run + [p];
    assert all[..|run|] == run;
    PendingIs(run);
    forall b: nat
      ensures Completes(all, b, |run|) <==> OpenAt(run, b) && IsEnd(p, run[b][1])
    {
    }
    forall b: nat | Completes(all, b, |run|)
      ensures After(all).current == Some(PublishedBy(all, b, |run|)) && Step(After(run), p).1
    {
      GenerationOf(run[b][1], Counting(run[b + 1..], run[b][1]));
      assert all[b + 1..|run|] == run[b + 1..];
    }
    if Step(After(run), p).1 {
      var b: nat :| OpenAt(run, b);
      GenerationOf(run[b][1], Counting(run[b + 1..], run[b][1]));
      assert Completes(all, b, |run|);
    }
  }

  /** The snapshot of the generation begun at `b` and ended at `e`. */
  function PublishedBy(run: seq<Payload>, b: nat, e: nat): Resources
    requires Completes(run, b, e)
  {
    var g := run[b][1];
    GenerationOf(g, Counting(run[b + 1..e], g));
    Close(Described(g, Counting(run[b + 1..e], g)), run[e])
  }

  lemma {:induction false} CompletesShorter(run: seq<Payload>, p: Payload, b: nat, e: nat)
    requires e < |run|
    ensures Completes(run + [p], b, e) <==> Completes(run, b, e)
    ensures Completes(run, b, e) ==> PublishedBy(run + [p], b, e) == PublishedBy(run, b, e)
  {
    var all := run + [p];
    assert all[..e] == run[..e] && all[e] == run[e];
    if Completes(run, b, e) {
      assert run[..e][b] == run[b] && all[b] == run[b];
      assert all[b + 1..e] == run[b + 1..e];
    }
  }

  /** At every moment the current snapshot is the one last completed, and there is none before that. */
  lemma {:induction false} CurrentIsLastCompleted(run: seq<Payload>, b: nat, e: nat)
    requires Completes(run, b, e)
    requires forall c: nat, f: nat | Completes(run, c, f) :: f <= e
    ensures After(run).current == Some(PublishedBy(run, b, e))
    decreases |run|
  {
    var n := |run| - 1;
    var front, p := run[..n], run[n];
    assert run == front + [p];
    PublishesWhenComplete(front, p);
    if e < n {
      hide Step, After, PublishedBy;
      CompletesShorter(front, p, b, e);
      forall c: nat, f: nat | Completes(front, c, f) ensures f <= e {
        CompletesShorter(front, p, c, f);
      }
      CurrentIsLastCompleted(front, b, e);
    }
  }

  lemma {:induction false} NothingBeforeCompletion(run: seq<Payload>)
    requires forall b: nat, e: nat :: !Completes(run, b, e)
    ensures After(run).current == None
    decreases |run|
  {
    if run != [] {
      var n := |run| - 1;
      var front, p := run[..n], run[n];
      assert run == front + [p];
      PublishesWhenComplete(front, p);
      hide Step;
      forall b: nat, e: nat ensures !Completes(front, b, e) {
        if e < n { CompletesShorter(front, p, b, e); }
      }
      NothingBeforeCompletion(front);
    }
  }

  /** Reordering records of different kinds or endpoints inside a generation changes nothing. */
  lemma {:induction false} ReorderingPublishesTheSame(
      run: seq<Payload>, b: nat, e: nat, other: seq<Payload>, c: nat, f: nat)
    requires Completes(run, b, e) && Completes(other, c, f)
    requires run[b][1] == other[c][1] && run[e] == other[f]
    requires SameByKey(Counting(run[b + 1..e], run[b][1]), Counting(other[c + 1..f], run[b][1]))
    ensures PublishedBy(run, b, e) == PublishedBy(other, c, f)
  {
    var g := run[b][1];
    OrderAcrossKeys(g, Counting(run[b + 1..e], g), Counting(other[c + 1..f], g));
  }

  // ----- The assembler object -----

  class Assembler {
    var pending: Option<Resources>
    var current: Option<Resources>
    var updated: Option<nat>
    // Payloads since the connection began.
    ghost var run: seq<Payload>

    ghost predicate Valid()
      reads this
    {
      After(run) == State(pending, current) && (updated.None? <==> current.None?)
    }

    constructor ()
      ensures Valid() && run == []
    {
      pending, current, updated, run := None, None, None, [];
    }

    method Push(payload: Payload, now: nat) returns (published: bool)
      requires Valid()
      modifies this
      ensures Valid() && run == old(run) + [payload]
      ensures published <==> exists b: nat :: Completes(run, b, |old(run)|)
      ensures updated == if published then Some(now) else old(updated)
    {
      PublishesWhenComplete(run, payload);
      assert (run + [payload])[..|run|] == run;
      hide Completes, Apply, Close;
      run := run + [payload];
      if |payload| < 2 { return false; }
      var kind, generation := payload[0], payload[1];
      if kind == BEGIN {
        pending := Some(Empty(generation));
        return false;
      }
      if pending.None? || pending.value.generation != generation { return false; }
      if WellFormed(payload) {
        pending := Some(Apply(pending.value, payload));
      } else if kind == END && |payload| == 11 {
        current := Some(Close(pending.value, payload));
        pending := None;
        updated := Some(now);
        return true;
      }
      return false;
    }

    method Disconnect()
      modifies this
      ensures Valid() && run == [] && current == None
    {
      pending, current, updated, run := None, None, None, [];
    }
  }
}
