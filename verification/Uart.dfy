/**
  * The 8-N-1 bit sampler of tools/te-rs/src/bin/sr-report.rs, and the proof that it recovers
  * every byte of a clean waveform with the index of its start bit. Sample times are reals.
  */
module Uart {
  import opened Bytes
  import opened Arithmetic

  /** The sampler's fields that change. */
  datatype State = State(
    receiving: bool, previous: bool, nextSample: real, bit: nat, value: nat, start: nat)

  datatype Event = Event(start: nat, value: nat)

  function Weight(bit: nat): (r: nat)
    ensures r > 0
  {
    if bit == 0 then 1 else 2 * Weight(bit - 1)
  }

  /** One sample: the state after it, and the byte it completes, if any. */
  function Step(perBit: real, s: State, index: nat, level: bool): (State, seq<Event>) {
    if !s.receiving && s.previous && !level then
      (State(true, level, index as real + 1.5 * perBit, 0, 0, index), [])
    else if s.receiving && index as real >= s.nextSample then
      if s.bit < 8 then
        (s.(previous := level, bit := s.bit + 1, nextSample := s.nextSample + perBit,
            value := if level then s.value + Weight(s.bit) else s.value), [])
      else
        (s.(receiving := false, previous := level), if level then [Event(s.start, s.value)] else [])
    else
      (s.(previous := level), [])
  }

  /** All samples of a line, from `index` on. */
  function Run(perBit: real, s: State, index: nat, levels: seq<bool>): (State, seq<Event>)
    decreases |levels|
  {
    if levels == [] then (s, [])
    else
      var (s1, e1) := Step(perBit, s, index, levels[0]);
      var (s2, e2) := Run(perBit, s1, index + 1, levels[1..]);
      (s2, e1 + e2)
  }

  lemma {:induction false} RunAppend(perBit: real, s: State, index: nat, a: seq<bool>, b: seq<bool>)
    ensures var (s1, e1) := Run(perBit, s, index, a);
            var (s2, e2) := Run(perBit, s1, index + |a|, b);
            Run(perBit, s, index, a + b) == (s2, e1 + e2)
    decreases |a|
  {
    hide Step;
    if a == [] {
      assert a + b == b;
      assert [] + Run(perBit, s, index, b).1 == Run(perBit, s, index, b).1;
    } else {
      var (s1, e1) := Step(perBit, s, index, a[0]);
      assert (a + b)[1..] == a[1..] + b;
      RunAppend(perBit, s1, index + 1, a[1..], b);
      var (s2, e2) := Run(perBit, s1, index + 1, a[1..]);
      var (s3, e3) := Run(perBit, s2, index + |a|, b);
      assert e1 + (e2 + e3) == (e1 + e2) + e3;
    }
  }

  lemma {:induction false} RunSilent(perBit: real, s: State, index: nat, levels: seq<bool>, t: State)
    requires levels != [] && Step(perBit, s, index, levels[0]) == (t, [])
    ensures Run(perBit, s, index, levels) == Run(perBit, t, index + 1, levels[1..])
  {
    var (u, events) := Run(perBit, t, index + 1, levels[1..]);
    assert [] + events == events;
  }

  // ----- The waveform -----

  function Hold(level: bool, n: nat): (s: seq<bool>)
    ensures |s| == n
  {
    seq(n, _ => level)
  }

  function BitOf(value: byte, bit: nat): bool
    requires bit < 8
  {
    value as int / Weight(bit) % 2 == 1
  }

  /** The first `n` data bits, each held for `perBit` samples. */
  function DataBits(value: byte, perBit: nat, n: nat): (s: seq<bool>)
    requires n <= 8
    ensures |s| == n * perBit
  {
    if n == 0 then [] else DataBits(value, perBit, n - 1) + Hold(BitOf(value, n - 1), perBit)
  }

  /** Start bit low, eight data bits low bit first, stop bit high. */
  function FrameWave(value: byte, perBit: nat): (s: seq<bool>)
    ensures |s| == 10 * perBit
  {
    Hold(false, perBit) + DataBits(value, perBit, 8) + Hold(true, perBit)
  }

  /** Bytes with an idle line of any length before, between and after them. */
  function Wave(bytes: seq<byte>, gaps: seq<nat>, perBit: nat): seq<bool>
    requires |gaps| == |bytes| + 1
  {
    if bytes == [] then Hold(true, gaps[0])
    else Hold(true, gaps[0]) + FrameWave(bytes[0], perBit) + Wave(bytes[1..], gaps[1..], perBit)
  }

  /** Each byte with the index at which its start bit begins. */
  function Sent(bytes: seq<byte>, gaps: seq<nat>, perBit: nat, index: nat): seq<Event>
    requires |gaps| == |bytes| + 1
  {
    if bytes == [] then []
    else
      var start := index + gaps[0];
      [Event(start, bytes[0])] + Sent(bytes[1..], gaps[1..], perBit, start + 10 * perBit)
  }

  // ----- Stretches of one level -----

  predicate Idle(s: State) {
    !s.receiving && s.previous
  }

  /** Between bytes, a line that keeps its level changes nothing. */
  lemma {:induction false} Steady(perBit: real, s: State, index: nat, level: bool, n: nat)
    requires !s.receiving && s.previous == level
    ensures Run(perBit, s, index, Hold(level, n)) == (s, [])
    decreases n
  {
    if n > 0 {
      assert Hold(level, n)[1..] == Hold(level, n - 1);
      assert Step(perBit, s, index, level) == (s, []);
      Steady(perBit, s, index + 1, level, n - 1);
      RunSilent(perBit, s, index, Hold(level, n), s);
    } else {
      assert Hold(level, n) == [];
    }
  }

  /** Before the next sampling point nothing is read. */
  lemma {:induction false} Quiet(perBit: real, s: State, index: nat, level: bool, n: nat)
    requires s.receiving && (index + n) as real < s.nextSample + 1.0
    ensures Run(perBit, s, index, Hold(level, n)) == (if n == 0 then s else s.(previous := level), [])
    decreases n
  {
    if n > 0 {
      assert Hold(level, n)[1..] == Hold(level, n - 1);
      assert Hold(level, n)[0] == level;
      assert Step(perBit, s, index, level) == (s.(previous := level), []);
      Quiet(perBit, s.(previous := level), index + 1, level, n - 1);
      RunSilent(perBit, s, index, Hold(level, n), s.(previous := level));
    } else {
      assert Hold(level, n) == [];
    }
  }

  /** The sample nearest past the middle of a bit that starts at `at`. */
  function Middle(perBit: nat): nat {
    (perBit + 1) / 2
  }

  /** The state while the bit that starts at sample `at` is still to be read. */
  predicate Expecting(s: State, at: nat, perBit: nat, bit: nat, value: nat, start: nat) {
    && s.receiving && s.bit == bit && s.value == value && s.start == start
    && s.nextSample == at as real + 0.5 * perBit as real
  }

  /** Reading one bit cell up to its sampling point. */
  lemma {:induction false} FirstHalf(perBit: nat, s: State, at: nat, level: bool)
    requires perBit >= 2 && s.receiving && s.nextSample == at as real + 0.5 * perBit as real
    ensures var r := Run(perBit as real, s, at, Hold(level, Middle(perBit)));
            r.1 == [] && r.0.(previous := s.previous) == s
    ensures (at + Middle(perBit)) as real >= s.nextSample
  {
    Quiet(perBit as real, s, at, level, Middle(perBit));
  }

  /** A data cell adds its bit and leaves the next one expected. */
  lemma {:induction false} DataCell(perBit: nat, s: State, at: nat, bit: nat, value: nat, start: nat, level: bool)
    requires perBit >= 2 && bit < 8 && Expecting(s, at, perBit, bit, value, start)
    ensures var (t, events) := Run(perBit as real, s, at, Hold(level, perBit));
            && events == []
            && Expecting(t, at + perBit, perBit, bit + 1, if level then value + Weight(bit) else value, start)
  {
    var m := Middle(perBit);
    FirstHalf(perBit, s, at, level);
    var s1 := Run(perBit as real, s, at, Hold(level, m)).0;
    var s2 := Step(perBit as real, s1, at + m, level).0;
    Quiet(perBit as real, s2, at + m + 1, level, perBit - m - 1);
    RestOfCell(perBit as real, s, at, level, m, perBit);
  }

  /** The stop cell ends the byte, which is reported only if the line is high; then the sampler waits for an edge. */
  lemma {:induction false} StopCell(perBit: nat, s: State, at: nat, value: nat, start: nat, level: bool)
    requires perBit >= 2 && Expecting(s, at, perBit, 8, value, start)
    ensures var (t, events) := Run(perBit as real, s, at, Hold(level, perBit));
            && !t.receiving && t.previous == level
            && events == if level then [Event(start, value)] else []
  {
    var m := Middle(perBit);
    FirstHalf(perBit, s, at, level);
    var s1 := Run(perBit as real, s, at, Hold(level, m)).0;
    var s2 := Step(perBit as real, s1, at + m, level).0;
    Steady(perBit as real, s2, at + m + 1, level, perBit - m - 1);
    RestOfCell(perBit as real, s, at, level, m, perBit);
  }

  /** A stretch of one level as `m` samples, one more, and the rest. */
  lemma {:induction false} RestOfCell(perBit: real, s: State, at: nat, level: bool, m: nat, n: nat)
    requires m < n
    ensures var (s1, e1) := Run(perBit, s, at, Hold(level, m));
            var (s2, e2) := Step(perBit, s1, at + m, level);
            var (s3, e3) := Run(perBit, s2, at + m + 1, Hold(level, n - m - 1));
            Run(perBit, s, at, Hold(level, n)) == (s3, e1 + (e2 + e3))
  {
    hide Step;
    assert Hold(level, n) == Hold(level, m) + Hold(level, n - m);
    assert Hold(level, n - m)[1..] == Hold(level, n - m - 1);
    RunAppend(perBit, s, at, Hold(level, m), Hold(level, n - m));
  }

  // ----- A whole byte -----

  lemma {:induction false} BitAdds(value: byte, bit: nat)
    requires bit < 8
    ensures value as int % Weight(bit + 1) ==
            value as int % Weight(bit) + if BitOf(value, bit) then Weight(bit) else 0
    ensures Weight(0) == 1 && Weight(8) == 256
  {
    assert Weight(1) == 2 && Weight(2) == 4 && Weight(3) == 8 && Weight(4) == 16;
    assert Weight(5) == 32 && Weight(6) == 64 && Weight(7) == 128 && Weight(8) == 256;
    hide Weight;
    OneBit(value, Weight(bit));
  }

  /** The remainder by `2w` is the remainder by `w` and the next bit. */
  lemma {:induction false} OneBit(x: nat, w: nat)
    requires w > 0
    ensures x % (2 * w) == x % w + if x / w % 2 == 1 then w else 0
  {
    var q := x / w;
    var h, b := q / 2, q % 2;
    QuotientBounds(x, w);
    assert x == w * q + x % w;
    assert w * q == (2 * w) * h + w * b by { assert w * (2 * h + b) == w * (2 * h) + w * b; }
    Remainder(x, 2 * w, h, w * b + x % w);
  }

  /** The start bit, and then `n` data bits: the low `n` bits of the byte have been collected. */
  lemma {:induction false} BitsCollected(perBit: nat, s: State, index: nat, value: byte, n: nat)
    requires perBit >= 2 && Idle(s) && n <= 8
    ensures var (t, events) := Run(perBit as real, s, index, Hold(false, perBit) + DataBits(value, perBit, n));
            && events == []
            && Expecting(t, index + perBit + n * perBit, perBit, n, value as int % Weight(n), index)
    decreases n
  {
    hide Weight, BitOf, Step;
    var wave := Hold(false, perBit) + DataBits(value, perBit, n);
    BitAdds(value, 0);
    if n == 0 {
      StartCell(perBit, s, index);
      assert wave == Hold(false, perBit);
    } else {
      var before := Hold(false, perBit) + DataBits(value, perBit, n - 1);
      var level := BitOf(value, n - 1);
      assert wave == before + Hold(level, perBit);
      BitsCollected(perBit, s, index, value, n - 1);
      var t := Run(perBit as real, s, index, before).0;
      var at := index + perBit + (n - 1) * perBit;
      assert index + |before| == at && at + perBit == index + perBit + n * perBit;
      DataCell(perBit, t, at, n - 1, value as int % Weight(n - 1), index, level);
      BitAdds(value, n - 1);
      RunAppend(perBit as real, s, index, before, Hold(level, perBit));
    }
  }

  /** A falling edge on an idle line starts a byte. */
  lemma {:induction false} StartCell(perBit: nat, s: State, index: nat)
    requires perBit >= 2 && Idle(s)
    ensures var (t, events) := Run(perBit as real, s, index, Hold(false, perBit));
            events == [] && Expecting(t, index + perBit, perBit, 0, 0, index)
  {
    var s1 := Step(perBit as real, s, index, false).0;
    assert Hold(false, perBit)[1..] == Hold(false, perBit - 1);
    Quiet(perBit as real, s1, index + 1, false, perBit - 1);
  }

  /** One byte with its start bit and a stop bit of either level; a low one is a framing error. */
  lemma {:induction false} FrameDecodes(perBit: nat, s: State, index: nat, value: byte, stop: bool)
    requires perBit >= 2 && Idle(s)
    ensures var wave := Hold(false, perBit) + DataBits(value, perBit, 8) + Hold(stop, perBit);
            var (t, events) := Run(perBit as real, s, index, wave);
            && !t.receiving && t.previous == stop
            && events == if stop then [Event(index, value)] else []
  {
    hide Step;
    BitsCollected(perBit, s, index, value, 8);
    BitAdds(value, 0);
    hide Weight;
    var front := Hold(false, perBit) + DataBits(value, perBit, 8);
    var t := Run(perBit as real, s, index, front).0;
    StopCell(perBit, t, index + perBit + 8 * perBit, value, index, stop);
    RunAppend(perBit as real, s, index, front, Hold(stop, perBit));
  }

  /** Any bytes, with any gaps or none, at any whole number of two or more samples per bit. */
  lemma {:induction false} WaveDecodes(perBit: nat, s: State, index: nat, bytes: seq<byte>, gaps: seq<nat>)
    requires perBit >= 2 && Idle(s) && |gaps| == |bytes| + 1
    ensures var (t, events) := Run(perBit as real, s, index, Wave(bytes, gaps, perBit));
            Idle(t) && events == Sent(bytes, gaps, perBit, index)
    decreases |bytes|
  {
    hide Step, DataBits, Hold, Run, BitOf;
    var p := perBit as real;
    Steady(p, s, index, true, gaps[0]);
    if bytes != [] {
      var start := index + gaps[0];
      var frame, rest := FrameWave(bytes[0], perBit), Wave(bytes[1..], gaps[1..], perBit);
      FrameDecodes(perBit, s, start, bytes[0], true);
      assert frame == Hold(false, perBit) + DataBits(bytes[0], perBit, 8) + Hold(true, perBit);
      var t := Run(p, s, start, frame).0;
      WaveDecodes(perBit, t, start + 10 * perBit, bytes[1..], gaps[1..]);
      RunAppend(p, s, start, frame, rest);
      RunAppend(p, s, index, Hold(true, gaps[0]), frame + rest);
      assert Hold(true, gaps[0]) + (frame + rest) == Wave(bytes, gaps, perBit);
    }
  }

  // ----- The sampler object -----

  const BAUD: real := 921_600.0

  class UartDecoder {
    const channel: nat
    const samplesPerBit: real
    var previous: bool
    var nextSample: real
    var bit: nat
    var value: nat
    var start: nat
    var receiving: bool
    // The levels sampled so far, and the bytes reported.
    ghost var levels: seq<bool>
    ghost var reported: seq<Event>

    function Now(): State
      reads this
    {
      State(receiving, previous, nextSample, bit, value, start)
    }

    ghost predicate Valid()
      reads this
    {
      && channel < 8
      // Only bits below `bit` are set, so that setting bit `bit` adds its weight.
      && bit <= 8 && value < Weight(bit)
      && Run(samplesPerBit, State(false, true, 0.0, 0, 0, 0), 0, levels) == (Now(), reported)
    }

    /** `rate` is the number of samples a second. */
    constructor (channel: nat, rate: nat)
      requires channel < 8
      ensures Valid() && levels == [] && reported == []
      ensures this.channel == channel && this.samplesPerBit * 921_600.0 == rate as real
    {
      this.channel, this.samplesPerBit := channel, rate as real / BAUD;
      previous, nextSample, bit, value, start, receiving := true, 0.0, 0, 0, 0, false;
      levels, reported := [], [];
    }

    /** Samples come in order: the index is the number of samples before this one. */
    method Sample(index: nat, packed: byte) returns (r: Option<(nat, nat)>)
      requires Valid() && index == |levels|
      modifies this
      ensures Valid()
      ensures levels == old(levels) + [BitOf(packed, channel)]
      ensures reported == match r
                          case None => old(reported)
                          case Some((at, b)) => old(reported) + [Event(at, b)]
    {
      var level := packed as int / Weight(channel) % 2 == 1;
      SampleExtends(samplesPerBit, Now(), levels, reported, level);
      levels := levels + [level];
      if !receiving && previous && !level {
        receiving := true;
        start := index;
        bit := 0;
        value := 0;
        nextSample := index as real + 1.5 * samplesPerBit;
      } else if receiving && index as real >= nextSample {
        if bit < 8 {
          if level {
            value := value + Weight(bit);
          }
          bit := bit + 1;
          nextSample := nextSample + samplesPerBit;
        } else {
          receiving := false;
          previous := level;
          if level {
            reported := reported + [Event(start, value)];
            return Some((start, value));
          }
          return None;
        }
      }
      previous := level;
      return None;
    }
  }

  lemma {:induction false} SampleExtends(perBit: real, now: State, levels: seq<bool>, reported: seq<Event>, level: bool)
    requires Run(perBit, State(false, true, 0.0, 0, 0, 0), 0, levels) == (now, reported)
    ensures var (t, events) := Step(perBit, now, |levels|, level);
            Run(perBit, State(false, true, 0.0, 0, 0, 0), 0, levels + [level]) == (t, reported + events)
    ensures reported + [] == reported
  {
    hide Step;
    var initial := State(false, true, 0.0, 0, 0, 0);
    RunAppend(perBit, initial, 0, levels, [level]);
    assert [level][1..] == [];
    var (t, events) := Step(perBit, now, |levels|, level);
    assert events + [] == events;
  }
}
