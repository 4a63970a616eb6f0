/**
  * The figures in resource records (tools/te-rs/src/resource.rs): records written from figures,
  * low byte first, and the snapshot they publish.
  */
module SnapshotFigures {
  import opened Arithmetic
  import opened Bytes
  import opened Snapshot

  // ----- Records -----

  function Le16(n: nat): (s: seq<byte>)
    requires n < 0x1_0000
    ensures |s| == 2
  {
    [n % 256, n / 256]
  }

  function Le24(n: nat): (s: seq<byte>)
    requires n < 0x100_0000
    ensures |s| == 3
  {
    [n % 256, n / 256 % 256, n / 65536]
  }

  predicate Small(n: nat) {
    n < 0x100_0000
  }

  predicate MemoryInRange(m: Memory) {
    && Small(m.current) && Small(m.peak) && Small(m.kernelStackPeak) && Small(m.allocationFailures)
    && m.usedSlots < 256 && m.totalSlots < 256 && Small(m.heapCurrent) && Small(m.heapPeak)
  }

  predicate ProcessInRange(p: Process) {
    && p.endpoint < 256 && p.state < 256 && p.blocked < 256 && p.stackWords < 0x1_0000 && p.stateWords < 0x1_0000
    && Small(p.dispatches) && Small(p.yielded) && Small(p.forcedPreemptions) && Small(p.cpuProgress)
    && Small(p.ipc) && Small(p.ttyIn) && Small(p.ttyOut)
  }

  function MemoryRecord(g: byte, m: Memory, heap: bool): Payload
    requires MemoryInRange(m)
  {
    [2, g] + Le24(m.current) + Le24(m.peak) + Le24(m.kernelStackPeak) + Le24(m.allocationFailures)
    + [m.usedSlots, m.totalSlots] + if heap then Le24(m.heapCurrent) + Le24(m.heapPeak) else []
  }

  function ProcessRecord(g: byte, p: Process): Payload
    requires ProcessInRange(p)
  {
    [3, g, p.endpoint, p.state, p.blocked] + Le16(p.stackWords) + Le16(p.stateWords)
    + Le24(p.dispatches) + Le24(p.yielded)
  }

  function IoRecord(g: byte, p: Process, field: seq<byte>): Payload
    requires ProcessInRange(p)
  {
    [4, g, p.endpoint] + Le24(p.ipc) + Le24(p.ttyIn) + Le24(p.ttyOut) + field
  }

  function PreemptionRecord(g: byte, p: Process): Payload
    requires ProcessInRange(p)
  {
    [6, g, p.endpoint] + Le24(p.forcedPreemptions) + Le24(p.cpuProgress)
  }

  function EndRecord(g: byte, errors: nat, rx: nat, tx: nat): Payload
    requires Small(errors) && Small(rx) && Small(tx)
  {
    [5, g] + Le24(errors) + Le24(rx) + Le24(tx)
  }

  /** A name fills its field, or is ended by a zero with anything after it. */
  predicate Names(field: seq<byte>, name: seq<byte>) {
    (|field| == 4 || |field| == 8) && 0 !in name && (field == name || name + [0] <= field)
  }

  // ----- Reading the figures back -----

  lemma {:induction false} Reads24(s: seq<byte>, at: nat, n: nat)
    requires at + 3 <= |s| && n < 0x100_0000 && s[at..at + 3] == Le24(n)
    ensures U24(s, at) == n
  {
    var d := s[at..at + 3];
    assert s[at] == d[0] && s[at + 1] == d[1] && s[at + 2] == d[2];
    Quotient(n, 65536, n / 256 / 256);
  }

  lemma {:induction false} Reads16(n: nat)
    requires n < 0x1_0000
    ensures U16(Le16(n)[0], Le16(n)[1]) == n
  {
  }

  lemma {:induction false} MemoryReads(g: byte, m: Memory, heap: bool)
    requires MemoryInRange(m)
    ensures var r := MemoryRecord(g, m, heap);
            && WellFormed(r) && r[0] == 2 && r[1] == g
            && MemoryOf(r) == if heap then m else m.(heapCurrent := 0, heapPeak := 0)
  {
    hide Le24;
    var r := MemoryRecord(g, m, heap);
    MemoryParts(g, m, heap);
    hide MemoryRecord, U24;
    Reads24(r, 2, m.current);
    Reads24(r, 5, m.peak);
    Reads24(r, 8, m.kernelStackPeak);
    Reads24(r, 11, m.allocationFailures);
    if heap {
      Reads24(r, 16, m.heapCurrent);
      Reads24(r, 19, m.heapPeak);
    }
  }

  lemma {:induction false} MemoryParts(g: byte, m: Memory, heap: bool)
    requires MemoryInRange(m)
    ensures var r := MemoryRecord(g, m, heap);
            && |r| == (if heap then 22 else 16) && r[0] == 2 && r[1] == g
            && r[14] == m.usedSlots && r[15] == m.totalSlots
            && r[2..5] == Le24(m.current) && r[5..8] == Le24(m.peak) && r[8..11] == Le24(m.kernelStackPeak)
            && r[11..14] == Le24(m.allocationFailures)
            && (heap ==> r[16..19] == Le24(m.heapCurrent) && r[19..22] == Le24(m.heapPeak))
  {
    hide Le24;
  }

  lemma {:induction false} ProcessReads(g: byte, p: Process, row: Process)
    requires ProcessInRange(p)
    ensures var r := ProcessRecord(g, p);
            && WellFormed(r) && r[0] == 3 && r[1] == g && r[2] as int == p.endpoint
            && SetFields(row, r) ==
               row.(endpoint := p.endpoint, state := p.state, blocked := p.blocked, stackWords := p.stackWords,
                    stateWords := p.stateWords, dispatches := p.dispatches, yielded := p.yielded)
  {
    hide Le24, Le16;
    var r := ProcessRecord(g, p);
    assert |r| == 15 && r[2] as int == p.endpoint && r[3] as int == p.state && r[4] as int == p.blocked;
    assert r[5] == Le16(p.stackWords)[0] && r[6] == Le16(p.stackWords)[1];
    assert r[7] == Le16(p.stateWords)[0] && r[8] == Le16(p.stateWords)[1];
    assert r[9..12] == Le24(p.dispatches) && r[12..15] == Le24(p.yielded);
    hide ProcessRecord, U24;
    Reads16(p.stackWords);
    Reads16(p.stateWords);
    Reads24(r, 9, p.dispatches);
    Reads24(r, 12, p.yielded);
  }

  lemma {:induction false} IoReads(g: byte, p: Process, field: seq<byte>, row: Process)
    requires ProcessInRange(p) && Names(field, p.name)
    ensures var r := IoRecord(g, p, field);
            && WellFormed(r) && r[0] == 4 && r[1] == g && r[2] as int == p.endpoint
            && SetFields(row, r) ==
               row.(endpoint := p.endpoint, ipc := p.ipc, ttyIn := p.ttyIn, ttyOut := p.ttyOut, name := p.name)
  {
    hide Le24;
    var r := IoRecord(g, p, field);
    assert |r| == 12 + |field| && r[2] as int == p.endpoint && r[12..] == field;
    assert r[3..6] == Le24(p.ipc) && r[6..9] == Le24(p.ttyIn) && r[9..12] == Le24(p.ttyOut);
    hide IoRecord, U24;
    Reads24(r, 3, p.ipc);
    Reads24(r, 6, p.ttyIn);
    Reads24(r, 9, p.ttyOut);
    NameReads(field, p.name);
  }

  lemma {:induction false} NameReads(field: seq<byte>, name: seq<byte>)
    requires 0 !in name && (field == name || name + [0] <= field)
    ensures UpToNul(field) == name
    decreases |field|
  {
    if name != [] {
      assert field[0] == name[0] && name[0] in name;
      if field != name {
        assert (name + [0])[1..] == name[1..] + [0];
        assert name[1..] + [0] <= field[1..];
      }
      NameReads(field[1..], name[1..]);
      assert [name[0]] + name[1..] == name;
    } else if field != [] {
      assert field[0] == ([] + [0 as byte])[0];
    }
  }

  lemma {:induction false} PreemptionReads(g: byte, p: Process, row: Process)
    requires ProcessInRange(p)
    ensures var r := PreemptionRecord(g, p);
            && WellFormed(r) && r[0] == 6 && r[1] == g && r[2] as int == p.endpoint
            && SetFields(row, r) ==
               row.(endpoint := p.endpoint, forcedPreemptions := p.forcedPreemptions, cpuProgress := p.cpuProgress)
  {
    hide Le24;
    var r := PreemptionRecord(g, p);
    assert |r| == 9 && r[2] as int == p.endpoint;
    assert r[3..6] == Le24(p.forcedPreemptions) && r[6..9] == Le24(p.cpuProgress);
    hide PreemptionRecord, U24;
    Reads24(r, 3, p.forcedPreemptions);
    Reads24(r, 6, p.cpuProgress);
  }

  lemma {:induction false} EndReads(s: Resources, errors: nat, rx: nat, tx: nat)
    requires Small(errors) && Small(rx) && Small(tx)
    ensures var r := EndRecord(s.generation, errors, rx, tx);
            && IsEnd(r, s.generation) && !WellFormed(r)
            && Close(s, r) == s.(protocolErrors := errors, uartRx := rx, uartTx := tx)
  {
    hide Le24;
    var r := EndRecord(s.generation, errors, rx, tx);
    assert |r| == 11 && r[0] == 5 && r[1] == s.generation;
    assert r[2..5] == Le24(errors) && r[5..8] == Le24(rx) && r[8..11] == Le24(tx);
    hide EndRecord, U24;
    Reads24(r, 2, errors);
    Reads24(r, 5, rx);
    Reads24(r, 8, tx);
  }

  // ----- A whole generation -----

  /** The state after more payloads. */
  function Feed(s: State, payloads: seq<Payload>): State
    decreases |payloads|
  {
    if payloads == [] then s else Feed(Step(s, payloads[0]).0, payloads[1..])
  }

  lemma {:induction false} FeedIsAfter(run: seq<Payload>, payloads: seq<Payload>)
    ensures After(run + payloads) == Feed(After(run), payloads)
    decreases |payloads|
  {
    hide Step;
    if payloads == [] {
      assert run + payloads == run;
    } else {
      var longer := run + [payloads[0]];
      assert longer[..|run|] == run;
      assert longer + payloads[1..] == run + payloads;
      FeedIsAfter(longer, payloads[1..]);
    }
  }

  lemma {:induction false} FeedAppend(s: State, a: seq<Payload>, b: seq<Payload>)
    ensures Feed(s, a + b) == Feed(Feed(s, a), b)
    decreases |a|
  {
    hide Step;
    if a == [] {
      assert a + b == b;
    } else {
      assert (a + b)[1..] == a[1..] + b;
      FeedAppend(Step(s, a[0]).0, a[1..], b);
    }
  }

  predicate Figures(ps: seq<Process>, fields: seq<seq<byte>>) {
    && |ps| == |fields|
    && (forall i | 0 <= i < |ps| :: ProcessInRange(ps[i]) && Names(fields[i], ps[i].name))
    && (forall i, j | 0 <= i < j < |ps| :: ps[i].endpoint != ps[j].endpoint)
  }

  /** The three records of each process. */
  function ProcessRecords(g: byte, ps: seq<Process>, fields: seq<seq<byte>>): seq<Payload>
    requires Figures(ps, fields)
  {
    if ps == [] then []
    else
      var k := |ps| - 1;
      ProcessRecords(g, ps[..k], fields[..k])
      + [ProcessRecord(g, ps[k]), IoRecord(g, ps[k], fields[k]), PreemptionRecord(g, ps[k])]
  }

  function ByEndpoint(ps: seq<Process>): map<byte, Process>
    requires forall i | 0 <= i < |ps| :: ps[i].endpoint < 256
  {
    if ps == [] then map[] else ByEndpoint(ps[..|ps| - 1])[ps[|ps| - 1].endpoint := ps[|ps| - 1]]
  }

  lemma {:induction false} ByEndpointKeys(ps: seq<Process>)
    requires forall i | 0 <= i < |ps| :: ps[i].endpoint < 256
    ensures forall e | e in ByEndpoint(ps) :: exists i :: 0 <= i < |ps| && ps[i].endpoint == e as int
  {
    if ps != [] {
      var front := ps[..|ps| - 1];
      ByEndpointKeys(front);
      forall e | e in ByEndpoint(ps)
        ensures exists i :: 0 <= i < |ps| && ps[i].endpoint == e as int
      {
        if e as int != ps[|ps| - 1].endpoint {
          assert e in ByEndpoint(front);
          var i :| 0 <= i < |front| && front[i].endpoint == e as int;
          assert ps[i] == front[i];
        } else {
          assert ps[|ps| - 1].endpoint == e as int;
        }
      }
    }
  }

  /** Each process is listed under its endpoint. */
  lemma {:induction false} ByEndpointHolds(ps: seq<Process>, i: nat)
    requires i < |ps| && forall k | 0 <= k < |ps| :: ps[k].endpoint < 256
    requires forall k, n | 0 <= k < n < |ps| :: ps[k].endpoint != ps[n].endpoint
    ensures ps[i].endpoint as byte in ByEndpoint(ps) && ByEndpoint(ps)[ps[i].endpoint as byte] == ps[i]
    decreases |ps|
  {
    if i < |ps| - 1 { ByEndpointHolds(ps[..|ps| - 1], i); }
  }

  /** One well-formed record of the open generation. */
  lemma {:induction false} RecordApplies(r: Resources, current: Option<Resources>, p: Payload)
    requires WellFormed(p) && p[1] == r.generation
    ensures Step(State(Some(r), current), p) == (State(Some(Apply(r, p)), current), false)
  {
    hide Apply;
  }

  /** The three records of a process not yet listed add it with exactly its figures. */
  lemma {:induction false} ProcessAdded(r: Resources, current: Option<Resources>, p: Process, field: seq<byte>)
    requires ProcessInRange(p) && Names(field, p.name) && p.endpoint as byte !in r.processes
    ensures var g := r.generation;
            Feed(State(Some(r), current), [ProcessRecord(g, p), IoRecord(g, p, field), PreemptionRecord(g, p)])
            == State(Some(r.(processes := r.processes[p.endpoint as byte := p])), current)
  {
    var g, e := r.generation, p.endpoint as byte;
    var a, b, c := ProcessRecord(g, p), IoRecord(g, p, field), PreemptionRecord(g, p);
    ProcessReads(g, p, NoProcess(0));
    var row1 := SetFields(NoProcess(0), a);
    IoReads(g, p, field, row1);
    var row2 := SetFields(row1, b);
    PreemptionReads(g, p, row2);
    assert SetFields(row2, c) == p;
    hide SetFields, WellFormed, Step, ProcessRecord, IoRecord, PreemptionRecord;
    var r1 := r.(processes := r.processes[e := row1]);
    var r2 := r.(processes := r.processes[e := row2]);
    assert Apply(r, a) == r1;
    assert Apply(r1, b).processes == r2.processes;
    assert Apply(r2, c).processes == r.processes[e := p];
    RecordApplies(r, current, a);
    RecordApplies(r1, current, b);
    RecordApplies(r2, current, c);
    FeedThree(State(Some(r), current), a, b, c);
  }

  lemma {:induction false} FeedOne(s: State, a: Payload, rest: seq<Payload>)
    ensures Feed(s, [a] + rest) == Feed(Step(s, a).0, rest)
  {
    hide Step;
    assert ([a] + rest)[1..] == rest;
  }

  lemma {:induction false} FeedThree(s: State, a: Payload, b: Payload, c: Payload)
    ensures Feed(s, [a, b, c]) == Step(Step(Step(s, a).0, b).0, c).0
  {
    hide Step;
    FeedOne(s, a, [b, c]);
    FeedOne(Step(s, a).0, b, [c]);
    FeedOne(Step(Step(s, a).0, b).0, c, []);
    assert [a] + [b, c] == [a, b, c] && [b] + [c] == [b, c] && [c] + [] == [c];
  }

  lemma {:induction false} ProcessesAdded(r: Resources, current: Option<Resources>, ps: seq<Process>,
                                          fields: seq<seq<byte>>)
    requires Figures(ps, fields) && r.processes == map[]
    ensures Feed(State(Some(r), current), ProcessRecords(r.generation, ps, fields))
            == State(Some(r.(processes := ByEndpoint(ps))), current)
    decreases |ps|
  {
    hide Step, ProcessRecord, IoRecord, PreemptionRecord, ProcessInRange, Names;
    if ps != [] {
      var k, g := |ps| - 1, r.generation;
      var three := [ProcessRecord(g, ps[k]), IoRecord(g, ps[k], fields[k]), PreemptionRecord(g, ps[k])];
      forall i | 0 <= i < |ps|
        ensures ps[i].endpoint < 256
      {
        EndpointIsByte(ps[i]);
      }
      ProcessesAdded(r, current, ps[..k], fields[..k]);
      FeedAppend(State(Some(r), current), ProcessRecords(g, ps[..k], fields[..k]), three);
      var r1 := r.(processes := ByEndpoint(ps[..k]));
      ByEndpointKeys(ps[..k]);
      assert forall i | 0 <= i < k :: ps[..k][i] == ps[i] && ps[i].endpoint != ps[k].endpoint;
      ProcessAdded(r1, current, ps[k], fields[k]);
    }
  }

  lemma {:induction false} EndpointIsByte(p: Process)
    requires ProcessInRange(p)
    ensures p.endpoint < 256
  {
  }

  /** What no record has said is zero, and a name that none has given is empty. */
  lemma {:induction false} UnsaidIsZero(g: byte, current: Option<Resources>, p: Process, field: seq<byte>)
    requires ProcessInRange(p) && Names(field, p.name)
    ensures var s := Feed(State(None, current), [[1, g], IoRecord(g, p, field)]);
            s.pending == Some(Resources(
              g, Memory(0, 0, 0, 0, 0, 0, 0, 0),
              map[p.endpoint as byte := Process(p.endpoint, 0, 0, 0, 0, 0, 0, 0, 0, p.ipc, p.ttyIn, p.ttyOut, p.name)],
              0, 0, 0))
  {
    var begin, io := [1 as byte, g], IoRecord(g, p, field);
    assert Step(State(None, current), begin).0 == State(Some(Empty(g)), current);
    IoReads(g, p, field, NoProcess(0));
    assert Apply(Empty(g), io).processes == map[][p.endpoint as byte := SetFields(NoProcess(0), io)];
    RecordApplies(Empty(g), current, io);
    hide Step, Apply, IoRecord, SetFields;
    FeedOne(State(None, current), begin, [io]);
    FeedOne(State(Some(Empty(g)), current), io, []);
    assert [begin] + [io] == [begin, io] && [io] + [] == [io];
  }

  /** BEGIN, the memory record, the records of every process, END. */
  function Generation(g: byte, memory: Memory, heap: bool, ps: seq<Process>, fields: seq<seq<byte>>,
                      errors: nat, rx: nat, tx: nat): seq<Payload>
    requires MemoryInRange(memory) && Figures(ps, fields) && Small(errors) && Small(rx) && Small(tx)
  {
    [[1, g], MemoryRecord(g, memory, heap)] + ProcessRecords(g, ps, fields) + [EndRecord(g, errors, rx, tx)]
  }

  /** Whatever came before, such a run publishes a snapshot with exactly these figures. */
  lemma {:induction false} FiguresArePublished(
      run: seq<Payload>, g: byte, memory: Memory, heap: bool, ps: seq<Process>, fields: seq<seq<byte>>,
      errors: nat, rx: nat, tx: nat)
    requires MemoryInRange(memory) && Figures(ps, fields) && Small(errors) && Small(rx) && Small(tx)
    ensures After(run + Generation(g, memory, heap, ps, fields, errors, rx, tx)).current ==
            Some(Resources(g, if heap then memory else memory.(heapCurrent := 0, heapPeak := 0), ByEndpoint(ps),
                           errors, rx, tx))
  {
    var s := After(run);
    var begin, m, end := [1 as byte, g], MemoryRecord(g, memory, heap), EndRecord(g, errors, rx, tx);
    var records := ProcessRecords(g, ps, fields);
    MemoryReads(g, memory, heap);
    var r := Empty(g).(memory := MemoryOf(m));
    EndReads(r.(processes := ByEndpoint(ps)), errors, rx, tx);
    FeedIsAfter(run, Generation(g, memory, heap, ps, fields, errors, rx, tx));
    FeedAppend(s, [begin, m], records + [end]);
    FeedAppend(State(Some(r), s.current), records, [end]);
    Regroup([begin, m], records, [end]);
    BeginAndMemory(s, g, m);
    ProcessesAdded(r, s.current, ps, fields);
    Ends(r.(processes := ByEndpoint(ps)), s.current, end);
  }

  lemma {:induction false} Regroup(a: seq<Payload>, b: seq<Payload>, c: seq<Payload>)
    ensures a + b + c == a + (b + c)
  {
  }

  lemma {:induction false} BeginAndMemory(s: State, g: byte, m: Payload)
    requires WellFormed(m) && m[0] == 2 && m[1] == g
    ensures Feed(s, [[1, g], m]) == State(Some(Empty(g).(memory := MemoryOf(m))), s.current)
  {
    var begin := [1 as byte, g];
    assert Step(s, begin).0 == State(Some(Empty(g)), s.current);
    RecordApplies(Empty(g), s.current, m);
    hide Step, MemoryOf;
    assert [begin, m][1..] == [m] && [m][1..] == [];
    assert Feed(Step(Step(s, begin).0, m).0, []) == Step(Step(s, begin).0, m).0;
  }

  lemma {:induction false} Ends(r: Resources, current: Option<Resources>, end: Payload)
    requires IsEnd(end, r.generation) && !WellFormed(end)
    ensures Feed(State(Some(r), current), [end]) == State(None, Some(Close(r, end)))
  {
    hide Close;
    assert [end][1..] == [];
    assert Feed(State(None, Some(Close(r, end))), []) == State(None, Some(Close(r, end)));
  }
}
