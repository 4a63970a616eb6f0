/**
  * Time frames (time_frame of tools/te-rs/src/main.rs) and the program that reads them
  * (include/clock_app.msw): byte stuffing on one side, a GETCHAR loop on the other.
  */
module Clock {
  import opened Bytes
  import opened Arithmetic

  const ESC: byte := 27
  const EXIT: byte := 29
  const MARK: byte := 255
  const UPTIME: byte := 1
  const CLOCK: byte := 2
  /** COR24 words have 24 bits; an INT below this is not negative. */
  const TICK_LIMIT: nat := 0x80_0000
  const WORD_LIMIT: nat := 0x100_0000

  // ----- The frames -----

  function Stuff(b: byte): seq<byte> {
    if b == MARK then [MARK, 0] else if b == EXIT then [MARK, 3] else [b]
  }

  function TickByte(tick: nat, i: nat): byte {
    if i == 0 then tick % 256 else if i == 1 then tick / 256 % 256 else tick / 65536 % 256
  }

  function TimeFrame(code: byte, tick: nat): seq<byte> {
    [MARK, code] + (Stuff(TickByte(tick, 0)) + (Stuff(TickByte(tick, 1)) + Stuff(TickByte(tick, 2))))
  }

  /** Two frames spelled out: both bytes that need it are stuffed, and the tick goes low byte first. */
  lemma {:induction false} TimeFrameExamples()
    ensures TimeFrame(1, 0x1dff) == [0xff, 1, 0xff, 0, 0xff, 3, 0]
    ensures TimeFrame(2, 0x03_0201) == [0xff, 2, 1, 2, 3]
  {
  }

  method EncodeTimeFrame(uptime: bool, tick: nat) returns (frame: seq<byte>)
    ensures frame == TimeFrame(if uptime then UPTIME else CLOCK, tick)
  {
    frame := [MARK, if uptime then 1 else 2];
    ghost var head := frame;
    var bytes := [TickByte(tick, 0), TickByte(tick, 1), TickByte(tick, 2)];
    for i := 0 to 3
      invariant i == 0 ==> frame == head
      invariant i == 1 ==> frame == head + Stuff(bytes[0])
      invariant i == 2 ==> frame == head + Stuff(bytes[0]) + Stuff(bytes[1])
      invariant i == 3 ==> frame == head + Stuff(bytes[0]) + Stuff(bytes[1]) + Stuff(bytes[2])
    {
      if bytes[i] == 0xff {
        frame := frame + [0xff, 0];
      } else if bytes[i] == 0x1d {
        frame := frame + [0xff, 3];
      } else {
        frame := frame + [bytes[i]];
      }
    }
    assert frame == head + (Stuff(bytes[0]) + (Stuff(bytes[1]) + Stuff(bytes[2])));
  }

  function Frames(code: byte, ticks: seq<nat>): seq<byte> {
    if ticks == [] then [] else TimeFrame(code, ticks[0]) + Frames(code, ticks[1..])
  }

  /** Marks are followed by a code below 4, and the exit key never appears. */
  predicate Clean(s: seq<byte>) {
    && EXIT !in s
    && forall i: nat | i < |s| && s[i] == MARK :: i + 1 < |s| && s[i + 1] < 4
  }

  lemma {:induction false} CleanAppend(a: seq<byte>, b: seq<byte>)
    requires Clean(a) && Clean(b)
    ensures Clean(a + b)
  {
  }

  /** A run of frames holds no exit key, no shell restart (255, 4) and no reboot (255, 5). */
  lemma {:induction false} FramesAreClean(code: byte, ticks: seq<nat>)
    requires code == UPTIME || code == CLOCK
    ensures Clean(Frames(code, ticks))
    ensures forall i: nat :: !PairAt(Frames(code, ticks), 255, 4, i) && !PairAt(Frames(code, ticks), 255, 5, i)
    decreases |ticks|
  {
    if ticks != [] {
      var tick := ticks[0];
      CleanAppend(Stuff(TickByte(tick, 1)), Stuff(TickByte(tick, 2)));
      CleanAppend(Stuff(TickByte(tick, 0)), Stuff(TickByte(tick, 1)) + Stuff(TickByte(tick, 2)));
      CleanAppend([MARK, code], Stuff(TickByte(tick, 0)) + (Stuff(TickByte(tick, 1)) + Stuff(TickByte(tick, 2))));
      FramesAreClean(code, ticks[1..]);
      CleanAppend(TimeFrame(code, tick), Frames(code, ticks[1..]));
    }
  }

  // ----- The reader, as a function of the bytes it is given -----

  /** One payload byte and what follows it; None while GETCHAR waits. */
  function Payload(s: seq<byte>): Option<(byte, seq<byte>)> {
    if s == [] then None
    else if s[0] == MARK then
      if |s| < 2 then None
      else Some((if s[1] == 0 then MARK else if s[1] == 3 then EXIT else s[1], s[2..]))
    else Some((s[0], s[1..]))
  }

  /** Three payload bytes, low byte first. */
  function Tick(s: seq<byte>): Option<(nat, seq<byte>)> {
    var b0 := Payload(s);
    if b0.None? then None else
    var b1 := Payload(b0.value.1);
    if b1.None? then None else
    var b2 := Payload(b1.value.1);
    if b2.None? then None else
    Some((b0.value.0 + b1.value.0 * 256 + b2.value.0 * 65536, b2.value.1))
  }

  function Print2(n: nat): (s: seq<byte>)
    requires n < 100
    ensures |s| == 2
  {
    [n / 10 + 48, n - n / 10 * 10 + 48]
  }

  /** The minutes of an uptime line, their hundreds dropped. */
  function UptimeMinutes(total: nat): (r: nat)
    ensures r < 100
  {
    total / 60 - total / 60 / 100 * 100
  }

  /** One printed line. */
  function Line(code: byte, total: nat): seq<byte>
    requires total < 360000
  {
    if code == UPTIME then
      Print2(UptimeMinutes(total)) + [58] + Print2(total - total / 60 * 60) + [10]
    else
      Print2(total / 3600) + [58] + Print2((total - total / 3600 * 3600) / 60) + [58]
      + Print2(total - total / 60 * 60) + [10]
  }

  /** What the target makes of a negative INT when it divides, and of a number out of range when it prints. */
  datatype Target = Target(divide: nat -> int, show: (byte, int) -> seq<byte>)

  /** The second of a tick. From `TICK_LIMIT` on the word is a negative INT. */
  function Second(target: Target, tick: nat): int {
    if tick < TICK_LIMIT then tick / 100 else target.divide(tick)
  }

  function Printed(target: Target, code: byte, second: int): seq<byte> {
    if 0 <= second < 360000 then Line(code, second) else target.show(code, second)
  }

  /** What is printed, what is left unread, and whether the program has ended. */
  datatype Outcome = Outcome(output: seq<byte>, rest: seq<byte>, done: bool)

  function App(target: Target, code: byte, s: seq<byte>, synced: bool, last: int): Outcome
    decreases |s|
  {
    if s == [] then Outcome([], [], false)
    else if s[0] == ESC then Outcome([], s[1..], true)
    else if s[0] != MARK then App(target, code, s[1..], synced, last)
    else if |s| == 1 then Outcome([], [], false)
    else if s[1] != code then App(target, code, s[2..], synced, last)
    else
      TickShrinks(s[2..]);
      var tick := Tick(s[2..]);
      if tick.None? then Outcome([], [], false)
      else
        var second := Second(target, tick.value.0);
        var after := App(target, code, tick.value.1, true, second);
        if !synced || second != last then after.(output := Printed(target, code, second) + after.output) else after
  }

  lemma {:induction false} TickShrinks(s: seq<byte>)
    ensures var t := Tick(s); t.Some? ==> |t.value.1| < |s| && t.value.0 < 0x100_0000
  {
  }

  // ----- What a run of frames prints -----

  /** Frame `i` prints its second unless the frame before it had the same one. */
  function LineAt(target: Target, code: byte, ticks: seq<nat>, i: nat): seq<byte>
    requires i < |ticks|
  {
    if i == 0 || Second(target, ticks[i]) != Second(target, ticks[i - 1])
    then Printed(target, code, Second(target, ticks[i])) else []
  }

  function LinesFrom(target: Target, code: byte, ticks: seq<nat>, i: nat): seq<byte>
    requires i <= |ticks|
    decreases |ticks| - i
  {
    if i == |ticks| then [] else LineAt(target, code, ticks, i) + LinesFrom(target, code, ticks, i + 1)
  }

  /** Below the limit that is a line for the first tick and one for each change of its second. */
  lemma {:induction false} LineBelowLimit(target: Target, code: byte, ticks: seq<nat>, i: nat)
    requires i < |ticks| && ticks[i] < TICK_LIMIT && (i > 0 ==> ticks[i - 1] < TICK_LIMIT)
    ensures LineAt(target, code, ticks, i)
            == if i == 0 || ticks[i] / 100 != ticks[i - 1] / 100 then Line(code, ticks[i] / 100) else []
  {
  }

  lemma {:induction false} StuffedByteIsRead(b: byte, rest: seq<byte>)
    ensures Payload(Stuff(b) + rest) == Some((b, rest))
  {
    assert (Stuff(b) + rest)[|Stuff(b)|..] == rest;
  }

  lemma {:induction false} FrameIsRead(code: byte, tick: nat, rest: seq<byte>)
    requires tick < WORD_LIMIT
    ensures var s := TimeFrame(code, tick) + rest;
            |s| > 2 && s[0] == MARK && s[1] == code && Tick(s[2..]) == Some((tick, rest))
  {
    var x, y, z := Stuff(TickByte(tick, 0)), Stuff(TickByte(tick, 1)), Stuff(TickByte(tick, 2));
    assert (TimeFrame(code, tick) + rest)[2..] == x + (y + (z + rest));
    StuffedByteIsRead(TickByte(tick, 0), y + (z + rest));
    StuffedByteIsRead(TickByte(tick, 1), z + rest);
    StuffedByteIsRead(TickByte(tick, 2), rest);
    assert |x| > 0;
  }

  /** One frame of the program's own kind. */
  lemma {:induction false} FrameIsHandled(target: Target, code: byte, tick: nat, rest: seq<byte>, synced: bool,
                                          last: int)
    requires tick < WORD_LIMIT
    ensures var after := App(target, code, rest, true, Second(target, tick));
            App(target, code, TimeFrame(code, tick) + rest, synced, last)
            == if !synced || Second(target, tick) != last
               then after.(output := Printed(target, code, Second(target, tick)) + after.output) else after
  {
    hide TimeFrame, Tick, Printed, Second;
    FrameIsRead(code, tick, rest);
  }

  /** Reading frames `i` and later, after the ones before them. */
  lemma {:induction false} RunFrom(target: Target, code: byte, ticks: seq<nat>, i: nat, rest: seq<byte>)
    requires i <= |ticks| && forall k | 0 <= k < |ticks| :: ticks[k] < WORD_LIMIT
    ensures var last := if i == 0 then 0 else Second(target, ticks[i - 1]);
            App(target, code, Frames(code, ticks[i..]) + ([ESC] + rest), i > 0, last)
            == Outcome(LinesFrom(target, code, ticks, i), rest, true)
    decreases |ticks| - i
  {
    hide TimeFrame, App, LineAt, Frames;
    var tail := [ESC] + rest;
    if i == |ticks| {
      EscapeEnds(target, code, rest, i > 0, if i == 0 then 0 else Second(target, ticks[i - 1]));
      FramesFrom(code, ticks, i, tail);
    } else {
      RunFrom(target, code, ticks, i + 1, rest);
      FramesFrom(code, ticks, i, tail);
      FrameInRun(target, code, ticks, i, Frames(code, ticks[i + 1..]) + tail);
    }
  }

  lemma {:induction false} EscapeEnds(target: Target, code: byte, rest: seq<byte>, synced: bool, last: int)
    ensures App(target, code, [ESC] + rest, synced, last) == Outcome([], rest, true)
  {
    assert ([ESC] + rest)[1..] == rest;
  }

  lemma {:induction false} FramesFrom(code: byte, ticks: seq<nat>, i: nat, tail: seq<byte>)
    requires i <= |ticks|
    ensures Frames(code, ticks[i..]) + tail ==
            if i == |ticks| then tail else TimeFrame(code, ticks[i]) + (Frames(code, ticks[i + 1..]) + tail)
  {
    hide TimeFrame;
    if i < |ticks| {
      assert ticks[i..][1..] == ticks[i + 1..];
    }
  }

  lemma {:induction false} FrameInRun(target: Target, code: byte, ticks: seq<nat>, i: nat, more: seq<byte>)
    requires i < |ticks| && forall k | 0 <= k < |ticks| :: ticks[k] < WORD_LIMIT
    ensures var last := if i == 0 then 0 else Second(target, ticks[i - 1]);
            var after := App(target, code, more, true, Second(target, ticks[i]));
            App(target, code, TimeFrame(code, ticks[i]) + more, i > 0, last)
            == after.(output := LineAt(target, code, ticks, i) + after.output)
  {
    hide TimeFrame, App, Printed, Second;
    var last := if i == 0 then 0 else Second(target, ticks[i - 1]);
    FrameIsHandled(target, code, ticks[i], more, i > 0, last);
    var after := App(target, code, more, true, Second(target, ticks[i]));
    assert [] + after.output == after.output;
  }

  /** One line for the first frame and one for each change of second; the escape after them ends it. */
  lemma {:induction false} RunPrintsSeconds(target: Target, code: byte, ticks: seq<nat>, rest: seq<byte>)
    requires forall k | 0 <= k < |ticks| :: ticks[k] < WORD_LIMIT
    ensures App(target, code, Frames(code, ticks) + [27] + rest, false, 0)
            == Outcome(LinesFrom(target, code, ticks, 0), rest, true)
  {
    hide App, Frames, LinesFrom;
    RunFrom(target, code, ticks, 0, rest);
    assert ticks[0..] == ticks;
    assert Frames(code, ticks) + [ESC] + rest == Frames(code, ticks) + ([ESC] + rest);
  }

  // ----- Frames of the other kind -----

  predicate HoldsEscape(tick: nat) {
    TickByte(tick, 0) == ESC || TickByte(tick, 1) == ESC || TickByte(tick, 2) == ESC
  }

  /** A payload byte read outside a frame is passed over, unless it is an escape. */
  lemma {:induction false} StrayByte(target: Target, code: byte, b: byte, rest: seq<byte>, synced: bool, last: int)
    requires code == UPTIME || code == CLOCK
    ensures b != ESC ==> App(target, code, Stuff(b) + rest, synced, last) == App(target, code, rest, synced, last)
    ensures b == ESC ==> App(target, code, Stuff(b) + rest, synced, last) == Outcome([], rest, true)
  {
    assert (Stuff(b) + rest)[|Stuff(b)|..] == rest;
  }

  /**
    * Frames of the other kind are passed over exactly when no byte of their tick is an escape;
    * otherwise the program ends in the middle of the frame.
    */
  lemma {:induction false} OtherKind(target: Target, code: byte, other: byte, tick: nat, rest: seq<byte>,
                                     synced: bool, last: int)
    requires code == UPTIME || code == CLOCK
    requires other != code && other != ESC && other != MARK
    ensures var r := App(target, code, TimeFrame(other, tick) + rest, synced, last);
            if HoldsEscape(tick) then r.done && r.output == [] && |r.rest| >= |rest|
            else r == App(target, code, rest, synced, last)
  {
    var x, y, z := Stuff(TickByte(tick, 0)), Stuff(TickByte(tick, 1)), Stuff(TickByte(tick, 2));
    assert (TimeFrame(other, tick) + rest)[2..] == x + (y + (z + rest));
    StrayByte(target, code, TickByte(tick, 0), y + (z + rest), synced, last);
    StrayByte(target, code, TickByte(tick, 1), z + rest, synced, last);
    StrayByte(target, code, TickByte(tick, 2), rest, synced, last);
  }

  // ----- What a line says -----

  predicate Digits(a: byte, b: byte) {
    48 <= a <= 57 && 48 <= b <= 57
  }

  function Number(a: byte, b: byte): int {
    10 * (a - 48) + (b - 48)
  }

  lemma {:induction false} TwoDigits(n: nat)
    requires n < 100
    ensures var s := Print2(n); Digits(s[0], s[1]) && Number(s[0], s[1]) == n
  {
  }

  lemma {:induction false} Sexagesimal(total: nat)
    ensures var minutes, seconds := total / 60, total - total / 60 * 60;
            seconds < 60 && total == 60 * minutes + seconds
  {
  }

  lemma {:induction false} Hundreds(total: nat)
    ensures 60 * UptimeMinutes(total) + (total - total / 60 * 60) == total % 6000
  {
    var q := total / 60;
    var seconds := total - q * 60;
    Remainder(total, 6000, q / 100, 60 * UptimeMinutes(total) + seconds);
  }

  lemma {:induction false} Hours(total: nat)
    requires total < 360000
    ensures var hours, minutes := total / 3600, (total - total / 3600 * 3600) / 60;
            && hours < 100 && minutes < 60
            && 3600 * hours + 60 * minutes == 60 * (total / 60)
  {
    var hours := total / 3600;
    var left := total - hours * 3600;
    assert 0 <= left < 3600;
    assert total / 60 == 60 * hours + left / 60;
  }

  lemma {:induction false} TwoFields(a: nat, b: nat)
    requires a < 100 && b < 60
    ensures var s := Print2(a) + [58] + Print2(b) + [10];
            && |s| == 6 && s[2] == 58 && s[5] == 10
            && Digits(s[0], s[1]) && Digits(s[3], s[4])
            && Number(s[0], s[1]) == a && Number(s[3], s[4]) == b
  {
    TwoDigits(a);
    TwoDigits(b);
    hide Print2, Number;
  }

  /** An uptime line gives minutes and seconds, the minutes without their hundreds. */
  lemma {:induction false} UptimeLine(total: nat)
    requires total < 360000
    ensures var s := Line(UPTIME, total);
            && |s| == 6 && s[2] == 58 && s[5] == 10
            && Digits(s[0], s[1]) && Digits(s[3], s[4]) && Number(s[3], s[4]) < 60
            && 60 * Number(s[0], s[1]) + Number(s[3], s[4]) == total % 6000
  {
    Sexagesimal(total);
    Hundreds(total);
    TwoFields(UptimeMinutes(total), total - total / 60 * 60);
    hide Print2, Number, Digits, UptimeMinutes;
  }

  /** A clock line gives the hours, minutes and seconds. */
  lemma {:induction false} ClockLine(total: nat)
    requires total < 360000
    ensures var s := Line(CLOCK, total);
            && |s| == 9 && s[2] == 58 && s[5] == 58 && s[8] == 10
            && Digits(s[0], s[1]) && Digits(s[3], s[4]) && Digits(s[6], s[7])
            && Number(s[3], s[4]) < 60 && Number(s[6], s[7]) < 60
            && 3600 * Number(s[0], s[1]) + 60 * Number(s[3], s[4]) + Number(s[6], s[7]) == total
  {
    var hours, minutes := total / 3600, (total - total / 3600 * 3600) / 60;
    var seconds := total - total / 60 * 60;
    Sexagesimal(total);
    Hours(total);
    TwoDigits(hours);
    TwoDigits(minutes);
    TwoDigits(seconds);
    hide Print2, Number;
    assert Line(CLOCK, total) == Print2(hours) + [58] + Print2(minutes) + [58] + Print2(seconds) + [10];
    hide Line;
  }

  // ----- The program -----

  class Terminal {
    var input: seq<byte>
    var output: seq<byte>
    var payload: byte
    const target: Target

    constructor (target: Target, input: seq<byte>)
      ensures this.target == target && this.input == input && output == []
    {
      this.target := target;
      this.input, output, payload := input, [], 0;
    }

    /** None when the call would wait. */
    method GetChar() returns (r: Option<byte>)
      modifies this`input
      ensures old(input) == [] ==> r == None && input == []
      ensures old(input) != [] ==> r == Some(old(input)[0]) && input == old(input)[1..]
    {
      if input == [] { return None; }
      r := Some(input[0]);
      input := input[1..];
    }

    method TimeGetPayload() returns (ok: bool)
      modifies this`input, this`payload
      ensures ok == Payload(old(input)).Some?
      ensures ok ==> payload == Payload(old(input)).value.0 && input == Payload(old(input)).value.1
      ensures !ok ==> input == []
    {
      var ch := GetChar();
      if ch.None? { return false; }
      if ch.value == 255 {
        var code := GetChar();
        if code.None? { return false; }
        if code.value == 0 { payload := 255; }
        else if code.value == 3 { payload := 29; }
        else { payload := code.value; }
      } else {
        payload := ch.value;
      }
      return true;
    }

    method PutChar(b: byte)
      modifies this`output
      ensures output == old(output) + [b]
    {
      output := output + [b];
    }

    method TimePrint2(n: nat)
      requires n < 100
      modifies this`output
      ensures output == old(output) + Print2(n)
    {
      var q := n / 10;
      PutChar(q + 48);
      PutChar(n - q * 10 + 48);
    }

    method UptimePrint(total: nat)
      requires total < 360000
      modifies this`output
      ensures output == old(output) + Line(UPTIME, total)
    {
      var minutes: nat := total / 60;
      var hundreds := minutes / 100;
      minutes := minutes - hundreds * 100;
      var seconds := total - total / 60 * 60;
      TimePrint2(minutes);
      PutChar(58);
      TimePrint2(seconds);
      PutChar(10);
    }

    method ClockPrint(total: nat)
      requires total < 360000
      modifies this`output
      ensures output == old(output) + Line(CLOCK, total)
    {
      var hours := total / 3600;
      var minutes := (total - hours * 3600) / 60;
      var seconds := total - total / 60 * 60;
      TimePrint2(hours);
      PutChar(58);
      TimePrint2(minutes);
      PutChar(58);
      TimePrint2(seconds);
      PutChar(10);
    }

    method Show(code: byte, second: int)
      modifies this`output
      ensures output == old(output) + Printed(target, code, second)
    {
      if second < 0 || 360000 <= second {
        output := output + target.show(code, second);
      } else if code == UPTIME {
        UptimePrint(second);
      } else {
        ClockPrint(second);
      }
    }

    method ReadTick() returns (r: Option<nat>)
      modifies this`input, this`payload
      ensures r.Some? == Tick(old(input)).Some?
      ensures r.Some? ==> Tick(old(input)) == Some((r.value, input))
      ensures r.None? ==> input == []
    {
      var ok := TimeGetPayload();
      if !ok { return None; }
      var b0 := payload;
      ok := TimeGetPayload();
      if !ok { return None; }
      var b1 := payload;
      ok := TimeGetPayload();
      if !ok { return None; }
      return Some(b0 + b1 * 256 + payload * 65536);
    }

    /** Runs until an escape, or until it waits for input that has not come. */
    method TimeApp(code: byte) returns (done: bool)
      modifies this
      ensures var r := App(target, code, old(input), false, 0);
              output == old(output) + r.output && input == r.rest && done == r.done
    {
      hide Tick, Line;
      var last: int := 0;
      var synced := false;
      ghost var goal := App(target, code, input, false, 0);
      ghost var before := output;
      done := false;
      assert output + goal.output == before + goal.output;
      while !done
        invariant !done ==>
          var r := App(target, code, input, synced, last);
          output + r.output == before + goal.output && r.rest == goal.rest && r.done == goal.done
        invariant done ==> output == before + goal.output && input == goal.rest && goal.done
        decreases if done then 0 else 1, |input|
      {
        ghost var s := input;
        var ch := GetChar();
        if ch.None? { return; }
        if ch.value == 27 {
          done := true;
        } else if ch.value == 255 {
          var kind := GetChar();
          if kind.None? { return; }
          assert input == s[2..];
          if kind.value == code {
            TickShrinks(input);
            var tick := ReadTick();
            if tick.None? { return; }
            var second := Second(target, tick.value);
            if !synced {
              last := second;
              synced := true;
              Show(code, second);
            } else if second != last {
              last := second;
              Show(code, second);
            }
          }
        }
      }
    }
  }
}
