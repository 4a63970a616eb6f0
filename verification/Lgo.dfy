/**
  * LGO load images (scripts/cor24-bin-to-lgo.py): the text that is written, the check made of it,
  * and what a loader does with a text that passes.
  */
module Lgo {
  import opened Bytes

  const LIMIT: nat := 0x100_0000

  datatype Error = BadRecordSize | BadAddress | TooLong | Malformed | WrongData | WrongJumps

  // ----- Hexadecimal -----

  const DIGITS: string := "0123456789ABCDEF"

  function DigitOf(n: nat): (c: char)
    requires n < 16
    ensures IsHex(c) && DigitValue(c) == n
  {
    DIGITS[n]
  }

  predicate IsHex(c: char) {
    '0' <= c <= '9' || 'A' <= c <= 'F' || 'a' <= c <= 'f'
  }

  function DigitValue(c: char): (n: nat)
    requires IsHex(c)
    ensures n < 16
  {
    if c <= '9' then (c - '0') as nat else if c <= 'F' then (c - 'A') as nat + 10 else (c - 'a') as nat + 10
  }

  predicate AllHex(s: string) {
    forall k | 0 <= k < |s| :: IsHex(s[k])
  }

  function Value(s: string): nat
    requires AllHex(s)
  {
    if s == [] then 0 else 16 * Value(s[..|s| - 1]) + DigitValue(s[|s| - 1])
  }

  /** `digits` hexadecimal digits, as the format specification 0nX writes a number that fits. */
  function Padded(n: nat, digits: nat): (s: string)
    ensures |s| == digits && AllHex(s)
  {
    if digits == 0 then [] else Padded(n / 16, digits - 1) + [DigitOf(n % 16)]
  }

  function Power(digits: nat): nat {
    if digits == 0 then 1 else 16 * Power(digits - 1)
  }

  lemma {:induction false} PaddedValue(n: nat, digits: nat)
    requires n < Power(digits)
    ensures Value(Padded(n, digits)) == n
    decreases digits
  {
    if digits > 0 {
      PaddedValue(n / 16, digits - 1);
      var s := Padded(n, digits);
      assert s[..|s| - 1] == Padded(n / 16, digits - 1);
    }
  }

  function HexOf(data: seq<byte>): (s: string)
    ensures |s| == 2 * |data| && AllHex(s)
  {
    if data == [] then []
    else HexOf(data[..|data| - 1]) + [DigitOf(data[|data| - 1] / 16), DigitOf(data[|data| - 1] % 16)]
  }

  function FromHex(s: string): (data: seq<byte>)
    requires AllHex(s) && |s| % 2 == 0
    ensures 2 * |data| == |s|
  {
    if s == [] then []
    else FromHex(s[..|s| - 2]) + [16 * DigitValue(s[|s| - 2]) + DigitValue(s[|s| - 1])]
  }

  lemma {:induction false} FromHexOf(data: seq<byte>)
    ensures FromHex(HexOf(data)) == data
  {
    hide FromHex;
    if data != [] {
      var front, b := data[..|data| - 1], data[|data| - 1];
      FromHexOf(front);
      FromHexAdded(HexOf(front), b);
      assert front + [b] == data;
    } else {
      FromHexOfNothing();
    }
  }

  lemma {:induction false} FromHexOfNothing()
    ensures FromHex([]) == []
  {
  }

  lemma {:induction false} FromHexAdded(s: string, b: byte)
    requires AllHex(s) && |s| % 2 == 0
    ensures FromHex(s + [DigitOf(b / 16), DigitOf(b % 16)]) == FromHex(s) + [b]
  {
    var t := s + [DigitOf(b / 16), DigitOf(b % 16)];
    assert t[..|t| - 2] == s;
    assert t[|t| - 2] == DigitOf(b / 16) && t[|t| - 1] == DigitOf(b % 16);
  }

  /**
    * The number and byte parsers of the language. They also accept some text that is not plain
    * hexadecimal, which is all that is known of them here.
    */
  datatype Parsers = Parsers(int16: string -> Option<int>, fromHex: string -> Option<seq<byte>>)

  ghost predicate Faithful(p: Parsers) {
    && (forall s: string | s != [] && AllHex(s) :: p.int16(s) == Some(Value(s)))
    && (forall s: string | AllHex(s) && |s| % 2 == 0 :: p.fromHex(s) == Some(FromHex(s)))
  }

  // ----- Lines -----

  /** The characters at which `splitlines` breaks. */
  predicate IsBreak(c: char) {
    || '\n' <= c <= '\r' || '\U{1C}' <= c <= '\U{1E}'
    || c == '\U{85}' || c == '\U{2028}' || c == '\U{2029}'
  }

  predicate NoBreak(line: string) {
    forall k | 0 <= k < |line| :: !IsBreak(line[k])
  }

  function LineEnd(text: string, from: nat): (end: nat)
    requires from <= |text|
    ensures from <= end <= |text|
    ensures forall k | from <= k < end :: !IsBreak(text[k])
    ensures end < |text| ==> IsBreak(text[end])
    decreases |text| - from
  {
    if from == |text| || IsBreak(text[from]) then from else LineEnd(text, from + 1)
  }

  /** A carriage return and a line feed together are one break; an empty last line is not a line. */
  function SplitLines(text: string): seq<string>
    decreases |text|
  {
    if text == [] then []
    else
      var end := LineEnd(text, 0);
      if end == |text| then [text]
      else if text[end] == '\r' && end + 1 < |text| && text[end + 1] == '\n' then
        [text[..end]] + SplitLines(text[end + 2..])
      else [text[..end]] + SplitLines(text[end + 1..])
  }

  /** Lines joined by line feeds, with one after the last. */
  function TextOf(lines: seq<string>): string {
    if lines == [] then [] else lines[0] + ['\n'] + TextOf(lines[1..])
  }

  lemma {:induction false} SplitText(lines: seq<string>)
    requires Unbroken(lines)
    ensures SplitLines(TextOf(lines)) == lines
    decreases |lines|
  {
    if lines != [] {
      var text, line := TextOf(lines), lines[0];
      var end := LineEnd(text, 0);
      assert forall k | 0 <= k < |line| :: text[k] == line[k] && !IsBreak(text[k]);
      assert text[|line|] == '\n';
      assert end == |line|;
      assert text[..end] == line && text[end + 1..] == TextOf(lines[1..]);
      SplitText(lines[1..]);
      assert [line] + lines[1..] == lines;
    }
  }

  // ----- Writing -----

  function DataRecord(address: nat, payload: seq<byte>): string {
    "L" + Padded(address, 6) + HexOf(payload)
  }

  function JumpRecord(address: nat): string {
    "G" + Padded(address, 6)
  }

  /** Data records of at most `n` bytes each, the first one at `address`. */
  function DataRecords(data: seq<byte>, address: nat, n: nat): seq<string>
    requires n > 0
    decreases |data|
  {
    if data == [] then []
    else if |data| <= n then [DataRecord(address, data)]
    else [DataRecord(address, data[..n])] + DataRecords(data[n..], address + n, n)
  }

  function Encoded(data: seq<byte>, load: nat, entry: nat, n: nat): seq<string>
    requires n > 0
  {
    DataRecords(data, load, n) + [JumpRecord(entry)]
  }

  predicate Encodes(data: seq<byte>, load: int, entry: int, n: int) {
    1 <= n <= 255 && 0 <= load < LIMIT && 0 <= entry < LIMIT && load + |data| <= LIMIT
  }

  method Encode(data: seq<byte>, load: int, entry: int, n: int) returns (r: Result<string, Error>)
    ensures r.Ok? <==> Encodes(data, load, entry, n)
    ensures r.Ok? ==> r.value == TextOf(Encoded(data, load, entry, n))
  {
    hide DataRecord, JumpRecord, TextOf, DataRecords;
    if !(1 <= n <= 255) { return Err(BadRecordSize); }
    if !(0 <= load <= 0xFFFFFF) || !(0 <= entry <= 0xFFFFFF) { return Err(BadAddress); }
    if load + |data| > 0x1000000 { return Err(TooLong); }
    var lines: seq<string> := [];
    var offset: nat := 0;
    assert From(data, 0) == data;
    assert lines + DataRecords(data, load, n) == DataRecords(data, load, n);
    while offset < |data|
      invariant lines + DataRecords(From(data, offset), load + offset, n) == DataRecords(data, load, n)
      decreases |data| - offset
    {
      ghost var written := lines;
      NextRecord(data, load, n, offset);
      var end := if offset + n < |data| then offset + n else |data|;
      lines := lines + [DataRecord(load + offset, data[offset..end])];
      offset := offset + n;
      Regroup(written, DataRecord(load + offset - n, data[offset - n..end]),
              DataRecords(From(data, offset), load + offset, n));
    }
    NoRecords(load + offset, n);
    assert lines + [] == lines;
    lines := lines + [JumpRecord(entry)];
    r := Ok(TextOf(lines));
  }

  lemma {:induction false} NoRecords(address: nat, n: nat)
    requires n > 0
    ensures DataRecords([], address, n) == []
  {
  }

  /** What is left from `offset` on. */
  function From(data: seq<byte>, offset: nat): seq<byte> {
    if offset < |data| then data[offset..] else []
  }

  lemma {:induction false} NextRecord(data: seq<byte>, load: nat, n: nat, offset: nat)
    requires n > 0 && offset < |data|
    ensures var end := if offset + n < |data| then offset + n else |data|;
            DataRecords(From(data, offset), load + offset, n)
            == [DataRecord(load + offset, data[offset..end])]
               + DataRecords(From(data, offset + n), load + (offset + n), n)
  {
    hide DataRecord;
    var rest := data[offset..];
    if |rest| > n {
      assert rest[..n] == data[offset..offset + n] && rest[n..] == data[offset + n..];
      assert From(data, offset + n) == data[offset + n..];
    } else {
      assert data[offset..|data|] == rest;
      assert From(data, offset + n) == [];
      assert [DataRecord(load + offset, rest)] + [] == [DataRecord(load + offset, rest)];
    }
  }

  lemma {:induction false} Regroup(a: seq<string>, x: string, b: seq<string>)
    ensures a + ([x] + b) == (a + [x]) + b
  {
  }

  // ----- The text, digit by digit -----

  lemma {:induction false} DigitIs(n: nat)
    requires n < 16
    ensures DigitOf(n) == if n < 10 then '0' + n as char else 'A' + (n - 10) as char
  {
  }

  /** An address is written from its highest digit down. */
  lemma {:induction false} AddressDigits(n: nat)
    ensures var s := Padded(n, 6);
            && s[0] == DigitOf(n / 16 / 16 / 16 / 16 / 16 % 16) && s[1] == DigitOf(n / 16 / 16 / 16 / 16 % 16)
            && s[2] == DigitOf(n / 16 / 16 / 16 % 16) && s[3] == DigitOf(n / 16 / 16 % 16)
            && s[4] == DigitOf(n / 16 % 16) && s[5] == DigitOf(n % 16)
  {
    hide DigitOf;
    var a, b, c := n / 16, n / 16 / 16, n / 16 / 16 / 16;
    var d, e := n / 16 / 16 / 16 / 16, n / 16 / 16 / 16 / 16 / 16;
    LastDigit(n, 6);
    LastDigit(a, 5);
    LastDigit(b, 4);
    LastDigit(c, 3);
    LastDigit(d, 2);
    LastDigit(e, 1);
    hide Padded;
  }

  lemma {:induction false} LastDigit(n: nat, digits: nat)
    requires digits > 0
    ensures Padded(n, digits) == Padded(n / 16, digits - 1) + [DigitOf(n % 16)]
  {
  }

  /** A byte is written high digit first. */
  lemma {:induction false} ByteDigits(data: seq<byte>, k: nat)
    requires k < |data|
    ensures HexOf(data)[2 * k] == DigitOf(data[k] / 16) && HexOf(data)[2 * k + 1] == DigitOf(data[k] % 16)
    decreases |data|
  {
    hide DigitOf;
    if k < |data| - 1 { ByteDigits(data[..|data| - 1], k); }
  }

  /** Record `k` holds the bytes from `k * n` on, `n` of them unless they are the last. */
  lemma {:induction false} RecordIs(data: seq<byte>, address: nat, n: nat, k: nat)
    requires n > 0
    ensures k < |DataRecords(data, address, n)| <==> k * n < |data|
    ensures k * n < |data| ==>
              var end := if k * n + n < |data| then k * n + n else |data|;
              DataRecords(data, address, n)[k] == DataRecord(address + k * n, data[k * n..end])
    decreases k
  {
    hide DataRecord;
    if k > 0 && |data| > n {
      var rest := data[n..];
      assert (k - 1) * n == k * n - n;
      RecordIs(rest, address + n, n, k - 1);
      if k * n < |data| {
        var end := if k * n + n < |data| then k * n + n else |data|;
        assert rest[(k - 1) * n..end - n] == data[k * n..end];
      }
    } else if k > 0 && data != [] {
      assert k * n == (k - 1) * n + n && (k - 1) * n >= 0;
    } else if data != [] {
      assert data[..|data|] == data && 0 * n == 0;
    }
  }

  /** Upper-case hexadecimal, the two record letters, and line feeds. */
  predicate Plain(s: string) {
    forall k | 0 <= k < |s| :: '0' <= s[k] <= '9' || 'A' <= s[k] <= 'F' || s[k] in {'L', 'G', '\n'}
  }

  lemma {:induction false} PaddedIsPlain(n: nat, digits: nat)
    ensures Plain(Padded(n, digits))
    decreases digits
  {
    if digits > 0 {
      PaddedIsPlain(n / 16, digits - 1);
      DigitIs(n % 16);
    }
  }

  lemma {:induction false} HexIsPlain(data: seq<byte>)
    ensures Plain(HexOf(data))
  {
    if data != [] {
      HexIsPlain(data[..|data| - 1]);
      DigitIs(data[|data| - 1] / 16);
      DigitIs(data[|data| - 1] % 16);
    }
  }

  lemma {:induction false} RecordsArePlain(data: seq<byte>, address: nat, n: nat)
    requires n > 0
    ensures forall k | 0 <= k < |DataRecords(data, address, n)| :: Plain(DataRecords(data, address, n)[k])
    decreases |data|
  {
    hide Padded, HexOf;
    PaddedIsPlain(address, 6);
    HexIsPlain(data);
    if |data| > n {
      HexIsPlain(data[..n]);
      RecordsArePlain(data[n..], address + n, n);
    }
  }

  lemma {:induction false} TextIsPlain(lines: seq<string>)
    requires forall k | 0 <= k < |lines| :: Plain(lines[k])
    ensures Plain(TextOf(lines))
  {
    if lines != [] {
      assert Plain(lines[0]);
      TextIsPlain(lines[1..]);
    }
  }

  /** The whole text is upper-case hexadecimal, record letters and line feeds. */
  lemma {:induction false} EncodedAlphabet(data: seq<byte>, load: nat, entry: nat, n: nat)
    requires n > 0
    ensures Plain(TextOf(Encoded(data, load, entry, n)))
  {
    hide DataRecords, Padded, TextOf;
    RecordsArePlain(data, load, n);
    PaddedIsPlain(entry, 6);
    TextIsPlain(Encoded(data, load, entry, n));
  }

  // ----- Checking -----

  datatype Scan = Scan(rebuilt: seq<byte>, next: int, jumps: seq<int>)

  /** One line of the check; None when it is refused. */
  function CheckLine(p: Parsers, s: Scan, line: string): Option<Scan> {
    if |line| > 0 && line[0] == 'L' then
      if |line| < 9 || (|line| - 7) % 2 != 0 then None
      else
        var address := p.int16(line[1..7]);
        if address.None? || address.value != s.next then None
        else
          var payload := p.fromHex(line[7..]);
          if payload.None? || payload.value == [] then None
          else Some(s.(rebuilt := s.rebuilt + payload.value, next := s.next + |payload.value|))
    else if |line| == 7 && line[0] == 'G' then
      var jump := p.int16(line[1..]);
      if jump.None? then None else Some(s.(jumps := s.jumps + [jump.value]))
    else None
  }

  function CheckLines(p: Parsers, s: Scan, lines: seq<string>): Option<Scan>
    decreases |lines|
  {
    if lines == [] then Some(s)
    else
      var next := CheckLine(p, s, lines[0]);
      if next.None? then None else CheckLines(p, next.value, lines[1..])
  }

  predicate Accepts(p: Parsers, lines: seq<string>, expected: seq<byte>, load: int, entry: int) {
    var s := CheckLines(p, Scan([], load, []), lines);
    s.Some? && s.value.rebuilt == expected && s.value.jumps == [entry]
  }

  method Verify(p: Parsers, text: string, expected: seq<byte>, load: int, entry: int) returns (r: Result<(), Error>)
    ensures r.Ok? <==> Accepts(p, SplitLines(text), expected, load, entry)
  {
    var rebuilt: seq<byte>, next, jumps: seq<int> := [], load, [];
    var lines := SplitLines(text);
    for i := 0 to |lines|
      invariant CheckLines(p, Scan(rebuilt, next, jumps), lines[i..]) == CheckLines(p, Scan([], load, []), lines)
    {
      var line := lines[i];
      assert lines[i..][1..] == lines[i + 1..];
      if |line| > 0 && line[0] == 'L' {
        if |line| < 9 || (|line| - 7) % 2 != 0 { return Err(Malformed); }
        var address := p.int16(line[1..7]);
        if address.None? || address.value != next { return Err(Malformed); }
        var payload := p.fromHex(line[7..]);
        if payload.None? || payload.value == [] { return Err(Malformed); }
        rebuilt := rebuilt + payload.value;
        next := next + |payload.value|;
      } else if |line| == 7 && line[0] == 'G' {
        var jump := p.int16(line[1..]);
        if jump.None? { return Err(Malformed); }
        jumps := jumps + [jump.value];
      } else {
        return Err(Malformed);
      }
    }
    if rebuilt != expected { return Err(WrongData); }
    if jumps != [entry] { return Err(WrongJumps); }
    r := Ok(());
  }

  // ----- Loading -----

  datatype Machine = Machine(memory: map<int, byte>, jumps: seq<int>)

  /** Memory that holds `data` from `load` on and nothing else. */
  function Placed(data: seq<byte>, load: int): map<int, byte> {
    map a: int | load <= a < load + |data| :: Held(data, load, a)
  }

  function Held(data: seq<byte>, load: int, a: int): byte
    requires load <= a < load + |data|
  {
    data[a - load]
  }

  /** A data or jump record in plain hexadecimal. */
  predicate Strict(line: string) {
    && |line| >= 7 && AllHex(line[1..])
    && ((line[0] == 'L' && |line| % 2 == 1) || (line[0] == 'G' && |line| == 7))
  }

  lemma {:induction false} HexParts(line: string)
    requires Strict(line)
    ensures AllHex(line[1..7]) && AllHex(line[7..]) && line[1..7] != []
    ensures line[0] == 'L' ==> |line[7..]| % 2 == 0
  {
    assert forall k | 0 <= k < 6 :: line[1..7][k] == line[1..][k];
    assert forall k | 0 <= k < |line| - 7 :: line[7..][k] == line[1..][k + 6];
  }

  /** The bytes of a data record. */
  function DataOf(line: string): seq<byte>
    requires Strict(line)
  {
    HexParts(line);
    if line[0] == 'L' then FromHex(line[7..]) else []
  }

  function AddressOf(line: string): nat
    requires Strict(line)
  {
    HexParts(line);
    Value(line[1..7])
  }

  /** A loader stores each byte at its own address and notes each jump. */
  function LoadLine(m: Machine, line: string): Machine
    requires Strict(line)
  {
    if line[0] == 'G' then m.(jumps := m.jumps + [AddressOf(line)])
    else m.(memory := m.memory + Placed(DataOf(line), AddressOf(line)))
  }

  predicate AllStrict(lines: seq<string>) {
    forall k | 0 <= k < |lines| :: Strict(lines[k])
  }

  function Load(m: Machine, lines: seq<string>): Machine
    requires AllStrict(lines)
    decreases |lines|
  {
    if lines == [] then m else Load(LoadLine(m, lines[0]), lines[1..])
  }

  lemma {:induction false} CheckedIsLoaded(p: Parsers, s: Scan, lines: seq<string>, load: int)
    requires Faithful(p) && AllStrict(lines) && s.next == load + |s.rebuilt|
    requires CheckLines(p, s, lines).Some?
    ensures var t := CheckLines(p, s, lines).value;
            Load(Machine(Placed(s.rebuilt, load), s.jumps), lines) == Machine(Placed(t.rebuilt, load), t.jumps)
    decreases |lines|
  {
    hide CheckLine, LoadLine, Placed, Strict, Faithful;
    if lines != [] {
      LineIsLoaded(p, s, lines[0], load);
      CheckedIsLoaded(p, CheckLine(p, s, lines[0]).value, lines[1..], load);
    }
  }

  lemma {:induction false} LineIsLoaded(p: Parsers, s: Scan, line: string, load: int)
    requires Faithful(p) && Strict(line) && s.next == load + |s.rebuilt|
    requires CheckLine(p, s, line).Some?
    ensures var t := CheckLine(p, s, line).value;
            && t.next == load + |t.rebuilt|
            && LoadLine(Machine(Placed(s.rebuilt, load), s.jumps), line) == Machine(Placed(t.rebuilt, load), t.jumps)
  {
    hide Placed, CheckLine, DataOf, AddressOf, Faithful, Strict;
    LineChecked(p, s, line);
    LineKind(line);
    PlacedAppend(s.rebuilt, DataOf(line), load);
  }

  lemma {:induction false} PlacedAppend(a: seq<byte>, b: seq<byte>, load: int)
    ensures Placed(a, load) + Placed(b, load + |a|) == Placed(a + b, load)
  {
  }

  // ----- What exactly the check accepts -----

  function AllData(lines: seq<string>): seq<byte>
    requires AllStrict(lines)
  {
    if lines == [] then [] else DataOf(lines[0]) + AllData(lines[1..])
  }

  function Jumps(lines: seq<string>): seq<int>
    requires AllStrict(lines)
  {
    if lines == [] then [] else (if lines[0][0] == 'G' then [AddressOf(lines[0])] else []) + Jumps(lines[1..])
  }

  /** Every data record has bytes, and its address is that of the first byte not yet given. */
  predicate Contiguous(lines: seq<string>, at: int)
    requires AllStrict(lines)
  {
    lines != [] ==>
      && (lines[0][0] == 'L' ==> AddressOf(lines[0]) == at && DataOf(lines[0]) != [])
      && Contiguous(lines[1..], at + |DataOf(lines[0])|)
  }

  lemma {:induction false} LineChecked(p: Parsers, s: Scan, line: string)
    requires Faithful(p) && Strict(line)
    ensures CheckLine(p, s, line) ==
            if line[0] == 'G' then Some(s.(jumps := s.jumps + [AddressOf(line)]))
            else if AddressOf(line) == s.next && DataOf(line) != [] then
              Some(s.(rebuilt := s.rebuilt + DataOf(line), next := s.next + |DataOf(line)|))
            else None
  {
    hide Faithful, Strict, AddressOf, DataOf;
    LineKind(line);
    FieldsAreRead(p, line);
  }

  lemma {:induction false} FieldsAreRead(p: Parsers, line: string)
    requires Faithful(p) && Strict(line)
    ensures line[0] == 'L' ==> p.int16(line[1..7]) == Some(AddressOf(line))
    ensures line[0] == 'L' ==> p.fromHex(line[7..]) == Some(DataOf(line))
    ensures line[0] == 'G' ==> p.int16(line[1..]) == Some(AddressOf(line))
    ensures line[0] == 'L' ==> |line| == 7 + 2 * |DataOf(line)|
    ensures line[0] == 'G' ==> |line| == 7
  {
    HexParts(line);
    hide Value, FromHex, AllHex;
    if line[0] == 'G' { assert line[1..7] == line[1..]; }
  }

  lemma {:induction false} LinesChecked(p: Parsers, s: Scan, lines: seq<string>)
    requires Faithful(p) && AllStrict(lines)
    ensures CheckLines(p, s, lines) ==
            if Contiguous(lines, s.next)
            then Some(Scan(s.rebuilt + AllData(lines), s.next + |AllData(lines)|, s.jumps + Jumps(lines)))
            else None
    decreases |lines|
  {
    hide Strict, CheckLine, Faithful, DataOf, AddressOf;
    if lines == [] {
      assert s.rebuilt + [] == s.rebuilt && s.jumps + [] == s.jumps;
    } else {
      LineChecked(p, s, lines[0]);
      LineKind(lines[0]);
      var t := CheckLine(p, s, lines[0]);
      if t.Some? {
        LinesChecked(p, t.value, lines[1..]);
        assert s.rebuilt + [] == s.rebuilt && s.jumps + [] == s.jumps;
        assert [] + AllData(lines[1..]) == AllData(lines[1..]) && [] + Jumps(lines[1..]) == Jumps(lines[1..]);
        Parts(s.rebuilt, DataOf(lines[0]), AllData(lines[1..]));
        Parts(s.jumps, [AddressOf(lines[0])], Jumps(lines[1..]));
      }
    }
  }

  lemma {:induction false} LineKind(line: string)
    requires Strict(line)
    ensures line[0] == 'L' || line[0] == 'G'
    ensures line[0] == 'G' ==> DataOf(line) == []
  {
  }

  lemma {:induction false} Parts<T>(a: seq<T>, b: seq<T>, c: seq<T>)
    ensures (a + b) + c == a + (b + c)
  {
  }

  /**
    * A plain text is accepted if and only if its data records follow one another from the load
    * address, their bytes are the expected ones, and the one jump is to the entry.
    */
  lemma {:induction false} AcceptsExactly(p: Parsers, lines: seq<string>, expected: seq<byte>, load: int, entry: int)
    requires Faithful(p) && AllStrict(lines)
    ensures Accepts(p, lines, expected, load, entry) <==>
            Contiguous(lines, load) && AllData(lines) == expected && Jumps(lines) == [entry]
  {
    hide Strict, CheckLines, Faithful, AllData, Jumps, Contiguous;
    LinesChecked(p, Scan([], load, []), lines);
    assert [] + AllData(lines) == AllData(lines) && [] + Jumps(lines) == Jumps(lines);
  }

  /** Parsers that accept plain hexadecimal only are among those considered. */
  lemma {:induction false} PlainParsers()
    ensures exists p: Parsers :: Faithful(p)
  {
    var p := Parsers(
      s => if s != [] && AllHex(s) then Some(Value(s)) else None,
      s => if AllHex(s) && |s| % 2 == 0 then Some(FromHex(s)) else None);
    assert Faithful(p);
  }

  const BLANK: Machine := Machine(map[], [])

  /** A plain text that passes the check loads exactly the expected bytes, and jumps once. */
  lemma {:induction false} AcceptedLoadsExactly(p: Parsers, lines: seq<string>, expected: seq<byte>, load: int,
                                                entry: int)
    requires Faithful(p) && AllStrict(lines)
    requires Accepts(p, lines, expected, load, entry)
    ensures Load(BLANK, lines) == Machine(Placed(expected, load), [entry])
  {
    CheckedIsLoaded(p, Scan([], load, []), lines, load);
    assert Placed([], load) == map[];
  }

  // ----- The writer passes its own check -----

  lemma {:induction false} AddressIsRead(p: Parsers, address: nat)
    requires Faithful(p) && address < LIMIT
    ensures p.int16(Padded(address, 6)) == Some(address)
  {
    assert Power(6) == LIMIT;
    PaddedValue(address, 6);
    hide Value, Padded;
  }

  lemma {:induction false} BytesAreRead(p: Parsers, payload: seq<byte>)
    requires Faithful(p)
    ensures p.fromHex(HexOf(payload)) == Some(payload)
  {
    FromHexOf(payload);
    hide FromHex, HexOf;
  }

  lemma {:induction false} DataRecordShape(address: nat, payload: seq<byte>)
    ensures var line := DataRecord(address, payload);
            && |line| == 7 + 2 * |payload| && line[0] == 'L'
            && line[1..7] == Padded(address, 6) && line[7..] == HexOf(payload)
            && Strict(line) && NoBreak(line)
  {
    hide Padded, HexOf;
    var line := DataRecord(address, payload);
    assert line[1..] == Padded(address, 6) + HexOf(payload);
    HexHasNoBreak(line);
  }

  lemma {:induction false} DataRecordPasses(p: Parsers, s: Scan, address: nat, payload: seq<byte>)
    requires Faithful(p) && address < LIMIT && s.next == address && payload != []
    ensures CheckLine(p, s, DataRecord(address, payload))
            == Some(s.(rebuilt := s.rebuilt + payload, next := address + |payload|))
  {
    hide Padded, HexOf, DataRecord, Strict, NoBreak, Faithful;
    DataRecordShape(address, payload);
    AddressIsRead(p, address);
    BytesAreRead(p, payload);
  }

  lemma {:induction false} JumpRecordPasses(p: Parsers, s: Scan, address: nat)
    requires Faithful(p) && address < LIMIT
    ensures var line := JumpRecord(address);
            && Strict(line) && NoBreak(line)
            && CheckLine(p, s, line) == Some(s.(jumps := s.jumps + [address]))
  {
    hide Padded;
    var line := JumpRecord(address);
    AddressIsRead(p, address);
    assert line[1..] == Padded(address, 6);
    HexHasNoBreak(line);
  }

  lemma {:induction false} HexHasNoBreak(line: string)
    requires line != [] && (line[0] == 'L' || line[0] == 'G') && AllHex(line[1..])
    ensures NoBreak(line)
  {
    forall k | 0 <= k < |line| ensures !IsBreak(line[k]) {
      if k > 0 { assert line[k] == line[1..][k - 1]; }
    }
  }

  predicate Unbroken(lines: seq<string>) {
    forall k | 0 <= k < |lines| :: NoBreak(lines[k])
  }

  lemma {:induction false} EncodedIsPlain(data: seq<byte>, load: nat, entry: nat, n: nat)
    requires n > 0
    ensures var lines := Encoded(data, load, entry, n); AllStrict(lines) && Unbroken(lines)
    decreases |data|
  {
    hide DataRecord, Strict, NoBreak;
    JumpRecordIsPlain(entry);
    if data != [] {
      if |data| <= n {
        DataRecordShape(load, data);
      } else {
        DataRecordShape(load, data[..n]);
        EncodedIsPlain(data[n..], load + n, entry, n);
        Regroup([], DataRecord(load, data[..n]), DataRecords(data[n..], load + n, n));
        assert Encoded(data, load, entry, n) == [DataRecord(load, data[..n])] + Encoded(data[n..], load + n, entry, n);
      }
    }
  }

  lemma {:induction false} JumpRecordIsPlain(address: nat)
    ensures Strict(JumpRecord(address)) && NoBreak(JumpRecord(address))
  {
    hide Padded;
    var line := JumpRecord(address);
    assert line[1..] == Padded(address, 6);
    HexHasNoBreak(line);
  }

  lemma {:induction false} CheckJump(p: Parsers, s: Scan, entry: nat)
    requires Faithful(p) && entry < LIMIT
    ensures CheckLines(p, s, [JumpRecord(entry)]) == Some(s.(jumps := s.jumps + [entry]))
  {
    hide CheckLine, Strict, NoBreak, Faithful, JumpRecord;
    JumpRecordPasses(p, s, entry);
    assert [JumpRecord(entry)][1..] == [];
  }

  lemma {:induction false} CheckRecord(p: Parsers, s: Scan, payload: seq<byte>, rest: seq<string>)
    requires Faithful(p) && 0 <= s.next < LIMIT && payload != []
    ensures CheckLines(p, s, [DataRecord(s.next, payload)] + rest)
            == CheckLines(p, s.(rebuilt := s.rebuilt + payload, next := s.next + |payload|), rest)
  {
    hide CheckLine, Faithful, DataRecord;
    DataRecordPasses(p, s, s.next, payload);
    assert ([DataRecord(s.next, payload)] + rest)[1..] == rest;
  }

  lemma {:induction false} RecordsPass(p: Parsers, s: Scan, data: seq<byte>, entry: nat, n: nat)
    requires Faithful(p) && n > 0 && 0 <= s.next && s.next + |data| <= LIMIT && entry < LIMIT
    ensures CheckLines(p, s, Encoded(data, s.next, entry, n))
            == Some(Scan(s.rebuilt + data, s.next + |data|, s.jumps + [entry]))
    decreases |data|
  {
    hide CheckLines, Faithful, DataRecord, JumpRecord;
    CheckJump(p, s.(rebuilt := s.rebuilt + data, next := s.next + |data|), entry);
    if data == [] {
      assert s.rebuilt + [] == s.rebuilt;
      assert Encoded(data, s.next, entry, n) == [JumpRecord(entry)];
    } else if |data| <= n {
      CheckRecord(p, s, data, [JumpRecord(entry)]);
    } else {
      var payload, rest := data[..n], data[n..];
      CheckRecord(p, s, payload, Encoded(rest, s.next + n, entry, n));
      RecordsPass(p, s.(rebuilt := s.rebuilt + payload, next := s.next + n), rest, entry, n);
      assert (s.rebuilt + payload) + rest == s.rebuilt + data;
      assert Encoded(data, s.next, entry, n) == [DataRecord(s.next, payload)] + Encoded(rest, s.next + n, entry, n);
    }
  }

  /** Whatever is written passes the check, and loads the bytes it was made from. */
  lemma {:induction false} EncodedIsAccepted(p: Parsers, data: seq<byte>, load: nat, entry: nat, n: nat)
    requires Faithful(p) && Encodes(data, load, entry, n)
    ensures var lines := Encoded(data, load, entry, n);
            && SplitLines(TextOf(lines)) == lines
            && Accepts(p, lines, data, load, entry)
            && AllStrict(lines) && Load(BLANK, lines) == Machine(Placed(data, load), [entry])
  {
    hide Encoded, Strict, NoBreak, CheckLines, Faithful, SplitLines, TextOf, Load;
    var lines := Encoded(data, load, entry, n);
    EncodedIsPlain(data, load, entry, n);
    SplitText(lines);
    RecordsPass(p, Scan([], load, []), data, entry, n);
    assert [] + data == data && [] + [entry as int] == [entry as int];
    AcceptedLoadsExactly(p, lines, data, load, entry);
  }

  /** The check does not require the jump to come last: this text jumps before its byte is stored. */
  lemma {:induction false} JumpMayComeFirst(p: Parsers, entry: nat)
    requires Faithful(p) && entry < LIMIT
    ensures Accepts(p, [JumpRecord(entry), DataRecord(0, [7])], [7], 0, entry)
  {
    hide CheckLine, Faithful, Strict, NoBreak, JumpRecord, DataRecord;
    var first, second := JumpRecord(entry), DataRecord(0, [7]);
    JumpRecordPasses(p, Scan([], 0, []), entry);
    CheckRecord(p, Scan([], 0, [entry]), [7], []);
    assert [first, second][1..] == [second] == [second] + [];
    assert [] + [entry as int] == [entry as int] && [] + [7 as byte] == [7];
    assert CheckLines(p, Scan([7], 1, [entry]), []) == Some(Scan([7], 1, [entry]));
  }
}
