/**
  * The bit sampler on a real capture: edges fall between samples and a bit lasts a fractional
  * number of them (24 MHz and 4 MHz give 26.04 and 4.34 at 921600 baud). The sampling points drift
  * against the cells, and every byte is recovered as long as each point stays in its own cell.
  */
module UartCapture {
  import opened Bytes
  import opened Uart

  function Ceil(x: real): (r: int)
    ensures x <= r as real < x + 1.0
  {
    -((-x).Floor)
  }

  /** A byte whose start bit falls at time `edge`, counted in samples; a low stop bit is a framing error. */
  datatype Frame = Frame(edge: real, value: byte, stop: bool)

  /** Time `k` bits after `at`. */
  function After(perBit: real, at: real, k: nat): real {
    if k == 0 then at else After(perBit, at, k - 1) + perBit
  }

  /** The level of cell `k`: start bit, data bits from the low one, stop bit. */
  function Cell(f: Frame, k: nat): bool
    requires k < 10
  {
    if k == 0 then false else if k < 9 then BitOf(f.value, k - 1) else f.stop
  }

  function End(perBit: real, f: Frame): real {
    After(perBit, f.edge, 10)
  }

  /** Every sample taken during the frame shows the level of the cell it falls in. */
  predicate Shows(levels: seq<bool>, perBit: real, f: Frame) {
    forall k: nat, j: nat | k < 10 && j < |levels|
      && After(perBit, f.edge, k) <= j as real < After(perBit, f.edge, k + 1) :: levels[j] == Cell(f, k)
  }

  /**
    * From time `from` on the samples show these frames, none before the one before it has ended,
    * and a high line elsewhere. After a low stop bit the line is high for a sample at least.
    */
  predicate Line(levels: seq<bool>, perBit: real, from: real, high: bool, frames: seq<Frame>)
    decreases |frames|
  {
    if frames == [] then
      forall j: nat | j < |levels| && from <= j as real :: levels[j]
    else
      var f := frames[0];
      && Spaced(from, high, f) && End(perBit, f) <= |levels| as real
      && (forall j: nat | j < |levels| && from <= j as real < f.edge :: levels[j])
      && Shows(levels, perBit, f)
      && Line(levels, perBit, End(perBit, f), f.stop, frames[1..])
  }

  predicate Spaced(from: real, high: bool, f: Frame) {
    0.0 <= from <= f.edge && (high || Ceil(from) < Ceil(f.edge))
  }

  /** Each frame whose stop bit is high, with the first sample at or after its edge. */
  function Events(frames: seq<Frame>): seq<Event>
    requires forall f | f in frames :: f.edge >= 0.0
  {
    if frames == [] then []
    else (if frames[0].stop then [Event(Ceil(frames[0].edge), frames[0].value)] else []) + Events(frames[1..])
  }

  // ----- Where the sampler looks -----

  /** When the sampler is due to read cell `k`, counting from the sample at which it saw the edge. */
  function Due(perBit: real, f: Frame, k: nat): real {
    After(perBit, Ceil(f.edge) as real + 0.5 * perBit, k)
  }

  /** The first sample when cell `k` is due falls in cell `k`. */
  predicate Inside(perBit: real, f: Frame) {
    && Ceil(f.edge) as real < f.edge + perBit
    && forall k: nat | 1 <= k < 10 ::
         After(perBit, f.edge, k) <= Ceil(Due(perBit, f, k)) as real < After(perBit, f.edge, k + 1)
  }

  lemma {:induction false} AfterMoves(perBit: real, a: real, b: real, k: nat)
    ensures After(perBit, a, k) - a == After(perBit, b, k) - b
  {
    if k > 0 { AfterMoves(perBit, a, b, k - 1); }
  }

  lemma {:induction false} AfterGrows(perBit: real, at: real, j: nat, k: nat)
    requires j <= k && perBit >= 0.0
    ensures After(perBit, at, j) <= After(perBit, at, k)
  {
    if j < k { AfterGrows(perBit, at, j, k - 1); }
  }

  /** Four samples per bit are enough for any edge. */
  lemma {:induction false} FourIsInside(perBit: real, f: Frame)
    requires perBit >= 4.0
    ensures Inside(perBit, f)
  {
    forall k: nat | 1 <= k < 10
      ensures After(perBit, f.edge, k) <= Ceil(Due(perBit, f, k)) as real < After(perBit, f.edge, k + 1)
    {
      AfterMoves(perBit, f.edge, Ceil(f.edge) as real + 0.5 * perBit, k);
    }
  }

  /** With whole numbers two are. */
  lemma {:induction false} WholeIsInside(perBit: nat, f: Frame)
    requires perBit >= 2 && f.edge == f.edge.Floor as real
    ensures Inside(perBit as real, f)
  {
    var p := perBit as real;
    assert Ceil(f.edge) == f.edge.Floor;
    forall k: nat | 1 <= k < 10
      ensures After(p, f.edge, k) <= Ceil(Due(p, f, k)) as real < After(p, f.edge, k + 1)
    {
      WholeInCell(perBit, f, f.edge.Floor, k);
    }
  }

  lemma {:induction false} WholeInCell(perBit: nat, f: Frame, at: int, k: nat)
    requires perBit >= 2 && f.edge == at as real
    ensures var p := perBit as real;
            After(p, f.edge, k) <= Ceil(Due(p, f, k)) as real < After(p, f.edge, k + 1)
  {
    var p := perBit as real;
    var n := WholeAfter(perBit, at, k);
    assert Ceil(at as real) == at;
    AfterMoves(p, at as real, at as real + 0.5 * p, k);
    WholeHalf(perBit, n);
    hide Ceil;
    assert Due(p, f, k) == n as real + 0.5 * p;
    assert After(p, f.edge, k + 1) == n as real + p;
    hide After, Due;
  }

  lemma {:induction false} WholeAfter(perBit: nat, at: int, k: nat) returns (n: int)
    ensures After(perBit as real, at as real, k) == n as real
  {
    if k == 0 { return at; }
    n := WholeAfter(perBit, at, k - 1);
    n := n + perBit;
  }

  lemma {:induction false} WholeHalf(perBit: nat, at: int)
    requires perBit >= 2
    ensures Ceil(at as real + 0.5 * perBit as real) < at + perBit
  {
    var half := (perBit + 1) / 2;
    assert at as real + 0.5 * perBit as real <= (at + half) as real;
  }

  // ----- Stretches without an event -----

  lemma {:induction false} OneStep(perBit: real, s: State, levels: seq<bool>, i: nat)
    requires i < |levels|
    ensures var (t, events) := Step(perBit, s, i, levels[i]);
            var rest := Run(perBit, t, i + 1, levels[i + 1..]);
            Run(perBit, s, i, levels[i..]) == (rest.0, events + rest.1)
  {
    hide Step;
    assert levels[i..][1..] == levels[i + 1..];
  }

  /** Until the next point is due nothing is read. */
  lemma {:induction false} WaitsUntil(perBit: real, s: State, levels: seq<bool>, i: nat, j: nat) returns (t: State)
    requires i <= j <= |levels| && s.receiving && j as real < s.nextSample + 1.0
    ensures t.(previous := s.previous) == s
    ensures Run(perBit, s, i, levels[i..]) == Run(perBit, t, j, levels[j..])
    decreases j - i
  {
    if i == j { return s; }
    OneStep(perBit, s, levels, i);
    var u := s.(previous := levels[i]);
    assert Step(perBit, s, i, levels[i]) == (u, []);
    t := WaitsUntil(perBit, u, levels, i + 1, j);
    var rest := Run(perBit, u, i + 1, levels[i + 1..]);
    assert [] + rest.1 == rest.1;
  }

  /** Between frames a line that does not fall changes only the level remembered. */
  lemma {:induction false} SteadyUntil(perBit: real, s: State, levels: seq<bool>, i: nat, j: nat, level: bool)
    requires i <= j <= |levels| && !s.receiving && (level || !s.previous)
    requires forall k | i <= k < j :: levels[k] == level
    ensures var t := s.(previous := if i < j then level else s.previous);
            Run(perBit, s, i, levels[i..]) == Run(perBit, t, j, levels[j..])
    decreases j - i
  {
    if i < j {
      OneStep(perBit, s, levels, i);
      var u := s.(previous := level);
      assert Step(perBit, s, i, levels[i]) == (u, []);
      SteadyUntil(perBit, u, levels, i + 1, j, level);
      var rest := Run(perBit, u, i + 1, levels[i + 1..]);
      assert [] + rest.1 == rest.1;
    }
  }

  // ----- One frame -----

  /** The first `k` data bits have been read and the next cell is awaited. */
  predicate Reading(s: State, perBit: real, f: Frame, k: nat)
    requires k <= 8
  {
    && s.receiving && s.bit == k && s.value == f.value as int % Weight(k)
    && s.start == Ceil(f.edge) && s.nextSample == Due(perBit, f, k + 1)
  }

  predicate Captured(levels: seq<bool>, perBit: real, f: Frame) {
    perBit >= 1.0 && f.edge >= 0.0 && End(perBit, f) <= |levels| as real
    && Shows(levels, perBit, f) && Inside(perBit, f)
  }

  /** The sample at which cell `k` is read shows that cell. */
  lemma {:induction false} SampleOfCell(levels: seq<bool>, perBit: real, f: Frame, k: nat)
    requires Captured(levels, perBit, f) && 1 <= k < 10
    ensures var j := Ceil(Due(perBit, f, k));
            0 <= j < |levels| && levels[j] == Cell(f, k) && (k < 9 ==> j + 1 <= Ceil(Due(perBit, f, k + 1)))
  {
    hide Cell;
    AfterGrows(perBit, f.edge, k + 1, 10);
    AfterGrows(perBit, f.edge, 0, k);
    var j: nat := Ceil(Due(perBit, f, k));
    assert After(perBit, f.edge, k) <= j as real < After(perBit, f.edge, k + 1);
    assert Due(perBit, f, k + 1) == Due(perBit, f, k) + perBit;
  }

  /** One data bit. */
  lemma {:induction false} BitRead(levels: seq<bool>, perBit: real, f: Frame, s: State, i: nat, k: nat)
    returns (t: State, m: nat)
    requires Captured(levels, perBit, f) && k < 8 && Reading(s, perBit, f, k) && i <= Ceil(Due(perBit, f, k + 1))
    ensures m <= Ceil(Due(perBit, f, k + 2)) && Reading(t, perBit, f, k + 1)
    ensures m <= |levels| && i <= |levels| && Run(perBit, s, i, levels[i..]) == Run(perBit, t, m, levels[m..])
  {
    SampleOfCell(levels, perBit, f, k + 1);
    hide Captured, Shows, Inside, Weight, Run, BitOf;
    var j: nat := Ceil(Due(perBit, f, k + 1));
    var u := WaitsUntil(perBit, s, levels, i, j);
    OneStep(perBit, u, levels, j);
    BitAdds(f.value, k);
    t, m := Step(perBit, u, j, levels[j]).0, j + 1;
    var rest := Run(perBit, t, m, levels[m..]);
    assert [] + rest.1 == rest.1;
  }

  lemma {:induction false} BitsRead(levels: seq<bool>, perBit: real, f: Frame, s: State, i: nat, k: nat)
    returns (t: State, m: nat)
    requires Captured(levels, perBit, f) && k <= 8 && Reading(s, perBit, f, k) && i <= Ceil(Due(perBit, f, k + 1))
    ensures m <= Ceil(Due(perBit, f, 9)) && Reading(t, perBit, f, 8)
    ensures m <= |levels| && i <= |levels| && Run(perBit, s, i, levels[i..]) == Run(perBit, t, m, levels[m..])
    decreases 8 - k
  {
    SampleOfCell(levels, perBit, f, k + 1);
    hide Captured, Reading, Run;
    if k == 8 { return s, i; }
    t, m := BitRead(levels, perBit, f, s, i, k);
    t, m := BitsRead(levels, perBit, f, t, m, k + 1);
  }

  function Reported(f: Frame): seq<Event>
    requires f.edge >= 0.0
  {
    if f.stop then [Event(Ceil(f.edge), f.value)] else []
  }

  /** From the last data bit to the end of the frame. */
  lemma {:induction false} StopRead(levels: seq<bool>, perBit: real, f: Frame, s: State, i: nat) returns (t: State)
    requires Captured(levels, perBit, f) && Reading(s, perBit, f, 8) && i <= Ceil(Due(perBit, f, 9))
    ensures !t.receiving && t.previous == f.stop
    ensures i <= |levels| && 0 <= Ceil(End(perBit, f)) <= |levels|
    ensures var rest := Run(perBit, t, Ceil(End(perBit, f)), levels[Ceil(End(perBit, f))..]);
            Run(perBit, s, i, levels[i..]) == (rest.0, Reported(f) + rest.1)
  {
    SampleOfCell(levels, perBit, f, 9);
    var j: nat := Ceil(Due(perBit, f, 9));
    var end := Ceil(End(perBit, f));
    assert After(perBit, f.edge, 9) <= j as real < After(perBit, f.edge, 10);
    forall k: nat | j < k < end
      ensures levels[k] == f.stop
    {
      assert After(perBit, f.edge, 9) <= k as real < After(perBit, f.edge, 9 + 1);
      assert levels[k] == Cell(f, 9);
    }
    assert Cell(f, 9) == f.stop;
    t := StopSampled(levels, perBit, f, s, i, j);
    SteadyUntil(perBit, t, levels, j + 1, end, f.stop);
  }

  lemma {:induction false} StopSampled(levels: seq<bool>, perBit: real, f: Frame, s: State, i: nat, j: nat)
    returns (t: State)
    requires f.edge >= 0.0 && Reading(s, perBit, f, 8)
    requires i <= j == Ceil(Due(perBit, f, 9)) && j < |levels| && levels[j] == f.stop
    ensures !t.receiving && t.previous == f.stop
    ensures var rest := Run(perBit, t, j + 1, levels[j + 1..]);
            Run(perBit, s, i, levels[i..]) == (rest.0, Reported(f) + rest.1)
  {
    BitAdds(f.value, 0);
    hide Weight, Run;
    var u := WaitsUntil(perBit, s, levels, i, j);
    OneStep(perBit, u, levels, j);
    t := Step(perBit, u, j, levels[j]).0;
  }

  /** From the edge: the start bit is seen at the first sample after it. */
  lemma {:induction false} FrameRead(levels: seq<bool>, perBit: real, f: Frame, s: State) returns (t: State)
    requires Captured(levels, perBit, f) && !s.receiving && s.previous
    ensures !t.receiving && t.previous == f.stop
    ensures 0 <= Ceil(f.edge) <= |levels| && 0 <= Ceil(End(perBit, f)) <= |levels|
    ensures var rest := Run(perBit, t, Ceil(End(perBit, f)), levels[Ceil(End(perBit, f))..]);
            Run(perBit, s, Ceil(f.edge), levels[Ceil(f.edge)..]) == (rest.0, Reported(f) + rest.1)
  {
    EdgeSeen(levels, perBit, f);
    BitAdds(f.value, 0);
    var i: nat := Ceil(f.edge);
    OneStep(perBit, s, levels, i);
    var u := Step(perBit, s, i, levels[i]).0;
    assert f.value as int % 1 == 0;
    DueFirst(perBit, f);
    assert Reading(u, perBit, f, 0);
    hide Captured, Reading, Run, Weight;
    var m: nat;
    t, m := BitsRead(levels, perBit, f, u, i + 1, 0);
    t := StopRead(levels, perBit, f, t, m);
    var rest := Run(perBit, u, i + 1, levels[i + 1..]);
    assert [] + rest.1 == rest.1;
  }

  lemma {:induction false} EdgeSeen(levels: seq<bool>, perBit: real, f: Frame)
    requires Captured(levels, perBit, f)
    ensures 0 <= Ceil(f.edge) < |levels| && !levels[Ceil(f.edge)]
  {
    AfterGrows(perBit, f.edge, 1, 10);
    var i: nat := Ceil(f.edge);
    assert After(perBit, f.edge, 0) <= i as real < After(perBit, f.edge, 0 + 1);
    assert levels[i] == Cell(f, 0);
  }

  lemma {:induction false} DueFirst(perBit: real, f: Frame)
    requires perBit >= 1.0
    ensures Due(perBit, f, 1) == Ceil(f.edge) as real + 1.5 * perBit
    ensures Ceil(f.edge) + 1 <= Ceil(Due(perBit, f, 1))
  {
    assert Due(perBit, f, 0) == Ceil(f.edge) as real + 0.5 * perBit;
  }

  // ----- A whole capture -----

  /** What the rest of a line gives, from a moment between two frames. */
  lemma {:induction false} LineRead(levels: seq<bool>, perBit: real, from: real, s: State, frames: seq<Frame>)
    requires perBit >= 1.0 && 0.0 <= from <= |levels| as real && !s.receiving
    requires Line(levels, perBit, from, s.previous, frames)
    requires forall f | f in frames :: Inside(perBit, f) && f.edge >= 0.0
    ensures var (t, events) := Run(perBit, s, Ceil(from), levels[Ceil(from)..]);
            !t.receiving && events == Events(frames)
    decreases |frames|
  {
    hide Inside, Shows, Run;
    var i: nat := Ceil(from);
    if frames == [] {
      SteadyUntil(perBit, s, levels, i, |levels|, true);
      NothingLeft(perBit, s.(previous := if i < |levels| then true else s.previous), levels);
    } else {
      var f := frames[0];
      var j: nat := Ceil(f.edge);
      assert f in frames;
      AfterGrows(perBit, f.edge, 0, 10);
      forall k: nat | i <= k < j
        ensures levels[k]
      {
        assert from <= k as real < f.edge;
      }
      SteadyUntil(perBit, s, levels, i, j, true);
      var u := s.(previous := true);
      assert u == s.(previous := if i < j then true else s.previous);
      assert Captured(levels, perBit, f);
      var t := FrameRead(levels, perBit, f, u);
      LineRead(levels, perBit, End(perBit, f), t, frames[1..]);
    }
  }

  lemma {:induction false} NothingLeft(perBit: real, s: State, levels: seq<bool>)
    ensures Run(perBit, s, |levels|, levels[|levels|..]) == (s, [])
  {
    assert levels[|levels|..] == [];
  }

  /** A capture whose sampling points stay in their cells gives its bytes with their start indices. */
  lemma {:induction false} CaptureDecodes(d: UartDecoder, frames: seq<Frame>)
    requires d.Valid() && d.samplesPerBit >= 1.0
    requires Line(d.levels, d.samplesPerBit, 0.0, true, frames)
    requires forall f | f in frames :: Inside(d.samplesPerBit, f) && f.edge >= 0.0
    ensures d.reported == Events(frames) && !d.receiving
  {
    hide Inside, Line;
    LineRead(d.levels, d.samplesPerBit, 0.0, State(false, true, 0.0, 0, 0, 0), frames);
    assert d.levels[0..] == d.levels;
  }

  /** Four samples per bit are 3.6864 MHz; captures are made at 4 and at 24. */
  lemma {:induction false} FastEnough(d: UartDecoder, rate: nat)
    requires d.samplesPerBit * 921_600.0 == rate as real && rate >= 3_686_400
    ensures d.samplesPerBit >= 4.0
  {
  }

  /** So does every capture at four samples per bit or more, however its edges fall. */
  lemma {:induction false} AnyRateDecodes(d: UartDecoder, frames: seq<Frame>)
    requires d.Valid() && d.samplesPerBit >= 4.0
    requires Line(d.levels, d.samplesPerBit, 0.0, true, frames)
    requires forall f | f in frames :: f.edge >= 0.0
    ensures d.reported == Events(frames) && !d.receiving
  {
    forall f | f in frames
      ensures Inside(d.samplesPerBit, f)
    {
      FourIsInside(d.samplesPerBit, f);
    }
    CaptureDecodes(d, frames);
  }

  // ----- Every such line can be captured -----

  predicate Sendable(perBit: real, from: real, high: bool, frames: seq<Frame>)
    decreases |frames|
  {
    frames != [] ==>
      && Spaced(from, high, frames[0])
      && Sendable(perBit, End(perBit, frames[0]), frames[0].stop, frames[1..])
  }

  function EndOf(perBit: real, from: real, frames: seq<Frame>): real
    decreases |frames|
  {
    if frames == [] then from else EndOf(perBit, End(perBit, frames[0]), frames[1..])
  }

  /** The last cell, from `k` down, that has begun at time `x`. */
  function CellFrom(perBit: real, f: Frame, x: real, k: nat): (r: nat)
    ensures r <= k
  {
    if k == 0 || After(perBit, f.edge, k) <= x then k else CellFrom(perBit, f, x, k - 1)
  }

  function LevelAt(perBit: real, frames: seq<Frame>, x: real): bool
    decreases |frames|
  {
    if frames == [] || x < frames[0].edge then true
    else if x < End(perBit, frames[0]) then Cell(frames[0], CellFrom(perBit, frames[0], x, 9))
    else LevelAt(perBit, frames[1..], x)
  }

  lemma {:induction false} CellIs(perBit: real, f: Frame, x: real, k: nat, top: nat)
    requires perBit > 0.0 && k <= top
    requires After(perBit, f.edge, k) <= x < After(perBit, f.edge, k + 1)
    ensures CellFrom(perBit, f, x, top) == k
    decreases top
  {
    if k < top {
      AfterGrows(perBit, f.edge, k + 1, top);
      CellIs(perBit, f, x, k, top - 1);
    }
  }

  /** For any bytes and edges there is a capture that shows them. */
  lemma {:induction false} LinesExist(perBit: real, from: real, high: bool, frames: seq<Frame>, levels: seq<bool>)
    requires perBit > 0.0 && Sendable(perBit, from, high, frames)
    requires EndOf(perBit, from, frames) <= |levels| as real
    requires forall j: nat | j < |levels| && from <= j as real :: levels[j] == LevelAt(perBit, frames, j as real)
    ensures from <= EndOf(perBit, from, frames) && Line(levels, perBit, from, high, frames)
    decreases |frames|
  {
    hide Cell, CellFrom;
    if frames != [] {
      var f := frames[0];
      AfterGrows(perBit, f.edge, 0, 10);
      forall k: nat, j: nat | k < 10 && j < |levels|
        && After(perBit, f.edge, k) <= j as real < After(perBit, f.edge, k + 1)
        ensures levels[j] == Cell(f, k)
      {
        AfterGrows(perBit, f.edge, 0, k);
        AfterGrows(perBit, f.edge, k + 1, 10);
        CellIs(perBit, f, j as real, k, 9);
      }
      LinesExist(perBit, End(perBit, f), f.stop, frames[1..], levels);
    }
  }
}
