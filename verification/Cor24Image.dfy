/** Executable images (scripts/cor24-image.py): manifest checks, builder and validator. */
module Cor24Image {
  import opened Bytes

  type Word24 = w: nat | w < 0x100_0000

  /** The low 24 bits of a CRC-32: any function of the bytes will do. */
  type Crc = seq<byte> -> Word24

  const MAGIC: seq<byte> := [0x43, 0x32, 0x34, 0x49, 0x4d, 0x47]
  const VERSION: nat := 1
  const WORD_BYTES: nat := 3
  const HEADER_BYTES: nat := 27

  predicate IsWord(value: int) {
    0 <= value < 0x100_0000
  }

  /** A 24-bit number, most significant byte first. */
  function Word(value: int): (s: seq<byte>)
    requires IsWord(value)
    ensures |s| == WORD_BYTES
  {
    [value / 65536, value / 256 % 256, value % 256]
  }

  function ReadWord(s: seq<byte>, at: nat): (w: Word24)
    requires at + WORD_BYTES <= |s|
  {
    65536 * s[at] as int + 256 * s[at + 1] as int + s[at + 2] as int
  }

  lemma {:induction false} WordReads(s: seq<byte>, at: nat, value: int)
    requires at + WORD_BYTES <= |s| && IsWord(value) && s[at..at + WORD_BYTES] == Word(value)
    ensures ReadWord(s, at) == value
  {
    var w := Word(value);
    assert s[at] == s[at..at + 3][0] == w[0] && s[at + 1] == s[at..at + 3][1] == w[1];
    assert s[at + 2] == s[at..at + 3][2] == w[2];
    assert value / 256 / 256 == value / 65536;
  }

  lemma {:induction false} ReadIsWord(s: seq<byte>, at: nat)
    requires at + WORD_BYTES <= |s|
    ensures s[at..at + WORD_BYTES] == Word(ReadWord(s, at))
  {
    var v := ReadWord(s, at);
    assert v / 256 == 256 * s[at] as int + s[at + 1] as int;
    assert v / 65536 == s[at] as int;
  }

  datatype Manifest = Manifest(
    version: int, textWords: int, dataWords: int, bssWords: int, entryOffset: int, relocationCount: int,
    payload: seq<byte>)

  datatype ImageError =
    | WordOutOfRange | TooShort | BadMagic | BadVersion | BadEntry | BadRelocations | BadLength | BadChecksum
    | BadZeroWords | BadHex

  predicate FieldsAreWords(m: Manifest) {
    IsWord(m.version) && IsWord(m.textWords) && IsWord(m.dataWords) && IsWord(m.bssWords) &&
    IsWord(m.entryOffset) && IsWord(m.relocationCount)
  }

  /** What a manifest must satisfy to be built into an image that is accepted. */
  predicate Acceptable(m: Manifest) {
    && FieldsAreWords(m) && m.version == VERSION && m.relocationCount == 0
    && m.textWords > 0 && m.entryOffset < m.textWords
    && |m.payload| == (m.textWords + m.dataWords) * WORD_BYTES
  }

  function HeaderBytes(crc: Crc, m: Manifest): (s: seq<byte>)
    requires FieldsAreWords(m)
    ensures |s| == HEADER_BYTES
  {
    MAGIC + Word(m.version) + Word(m.textWords) + Word(m.dataWords) + Word(m.bssWords) +
    Word(m.entryOffset) + Word(m.relocationCount) + Word(crc(m.payload))
  }

  function BuildImage(crc: Crc, m: Manifest): Result<seq<byte>, ImageError> {
    if FieldsAreWords(m) then Ok(HeaderBytes(crc, m) + m.payload) else Err(WordOutOfRange)
  }

  /** The header fields and the payload, read without any check. */
  function Parsed(d: seq<byte>): Manifest
    requires |d| >= HEADER_BYTES
  {
    Manifest(ReadWord(d, 6), ReadWord(d, 9), ReadWord(d, 12), ReadWord(d, 15), ReadWord(d, 18),
             ReadWord(d, 21), d[HEADER_BYTES..])
  }

  function ValidateImage(crc: Crc, d: seq<byte>): Result<Manifest, ImageError> {
    if |d| < HEADER_BYTES then Err(TooShort)
    else if d[..6] != MAGIC then Err(BadMagic)
    else
      var m := Parsed(d);
      if m.version != VERSION then Err(BadVersion)
      else if m.textWords == 0 || m.entryOffset >= m.textWords then Err(BadEntry)
      else if m.relocationCount != 0 then Err(BadRelocations)
      else if |m.payload| != (m.textWords + m.dataWords) * WORD_BYTES then Err(BadLength)
      else if crc(m.payload) != ReadWord(d, 24) then Err(BadChecksum)
      else Ok(m)
  }

  /** The validator accepts exactly the bytes the builder makes of the fields they hold. */
  lemma {:induction false} ValidatesExactlyBuilt(crc: Crc, d: seq<byte>)
    ensures ValidateImage(crc, d).Ok? <==>
            |d| >= HEADER_BYTES && Acceptable(Parsed(d)) && BuildImage(crc, Parsed(d)) == Ok(d)
    ensures ValidateImage(crc, d).Ok? ==> ValidateImage(crc, d).value == Parsed(d)
  {
    hide Word, ReadWord;
    if |d| >= HEADER_BYTES {
      var m := Parsed(d);
      ReadIsWord(d, 6);
      ReadIsWord(d, 9);
      ReadIsWord(d, 12);
      ReadIsWord(d, 15);
      ReadIsWord(d, 18);
      ReadIsWord(d, 21);
      ReadIsWord(d, 24);
      var h := HeaderBytes(crc, m);
      assert d == d[..6] + d[6..9] + d[9..12] + d[12..15] + d[15..18] + d[18..21] + d[21..24] + d[24..27] + d[27..];
      if BuildImage(crc, m) == Ok(d) {
        assert d[..6] == h[..6] == MAGIC && d[24..27] == h[24..27] == Word(crc(m.payload));
        WordReads(d, 24, crc(m.payload));
      }
    }
  }

  /** Building is undone by reading, and what an acceptable manifest builds is accepted. */
  lemma {:induction false} BuiltIsAccepted(crc: Crc, m: Manifest)
    requires Acceptable(m)
    ensures var d := BuildImage(crc, m);
            d.Ok? && |d.value| == HEADER_BYTES + |m.payload| && ValidateImage(crc, d.value) == Ok(m)
  {
    var d := BuildImage(crc, m).value;
    BuiltParses(crc, m);
    ValidatesExactlyBuilt(crc, d);
  }

  lemma {:induction false} BuiltParses(crc: Crc, m: Manifest)
    requires FieldsAreWords(m)
    ensures Parsed(BuildImage(crc, m).value) == m
  {
    hide Word, ReadWord;
    var d := BuildImage(crc, m).value;
    assert d[27..] == m.payload;
    assert d[6..9] == Word(m.version) && d[9..12] == Word(m.textWords) && d[12..15] == Word(m.dataWords);
    assert d[15..18] == Word(m.bssWords) && d[18..21] == Word(m.entryOffset);
    assert d[21..24] == Word(m.relocationCount);
    WordReads(d, 6, m.version);
    WordReads(d, 9, m.textWords);
    WordReads(d, 12, m.dataWords);
    WordReads(d, 15, m.bssWords);
    WordReads(d, 18, m.entryOffset);
    WordReads(d, 21, m.relocationCount);
  }

  /** The number in three bytes from `at` on, most significant first. */
  function BigEndian(s: seq<byte>, at: nat): nat
    requires at + 3 <= |s|
  {
    s[at] as int * 65536 + s[at + 1] as int * 256 + s[at + 2] as int
  }

  /** Where everything stands in an image: the letters C24IMG, seven numbers, the payload. */
  lemma {:induction false} BuiltLayout(crc: Crc, m: Manifest)
    requires FieldsAreWords(m)
    ensures var d := BuildImage(crc, m).value;
            && |d| == 27 + |m.payload| && d[..6] == [0x43, 0x32, 0x34, 0x49, 0x4d, 0x47]
            && BigEndian(d, 6) == m.version && BigEndian(d, 9) == m.textWords && BigEndian(d, 12) == m.dataWords
            && BigEndian(d, 15) == m.bssWords && BigEndian(d, 18) == m.entryOffset
            && BigEndian(d, 21) == m.relocationCount && BigEndian(d, 24) == crc(m.payload)
            && d[27..] == m.payload
  {
    BuiltParses(crc, m);
    var d := BuildImage(crc, m).value;
    hide Word;
    assert d[..6] == MAGIC && d[27..] == m.payload;
    assert d[24..27] == Word(crc(m.payload));
    WordReads(d, 24, crc(m.payload));
    hide BuildImage, HeaderBytes;
  }

  /** A manifest as parsed from TOML; `None` stands for text that is not hexadecimal. */
  datatype RawManifest = RawManifest(
    fields: Manifest, zeroWords: int, explicit: Option<seq<byte>>, suffix: Option<seq<byte>>)

  function LoadManifest(raw: RawManifest): Result<Manifest, ImageError> {
    var m := raw.fields;
    if !FieldsAreWords(m) || !IsWord(raw.zeroWords) then Err(WordOutOfRange)
    else if raw.zeroWords > m.dataWords then Err(BadZeroWords)
    else if m.version != VERSION then Err(BadVersion)
    else if m.relocationCount != 0 then Err(BadRelocations)
    else if raw.explicit == None || raw.suffix == None then Err(BadHex)
    else if |raw.explicit.value| + |raw.suffix.value| != (m.textWords + m.dataWords - raw.zeroWords) * WORD_BYTES then
      Err(BadLength)
    else if m.textWords == 0 || m.entryOffset >= m.textWords then Err(BadEntry)
    else Ok(m.(payload := raw.explicit.value + seq(raw.zeroWords * WORD_BYTES, _ => 0) + raw.suffix.value))
  }

  /** The payload of a manifest: the explicit bytes, the zero words, the suffix. */
  predicate Assembles(raw: RawManifest, payload: seq<byte>) {
    && raw.explicit.Some? && raw.suffix.Some?
    && var first, last := raw.explicit.value, raw.suffix.value;
    && |payload| == |first| + 3 * (if raw.zeroWords > 0 then raw.zeroWords else 0) + |last|
    && first <= payload && payload[|payload| - |last|..] == last
    && forall k | |first| <= k < |payload| - |last| :: payload[k] == 0
  }

  /** A manifest loads, with the payload it assembles, if and only if its fields are acceptable with that payload. */
  lemma {:induction false} LoadsExactly(raw: RawManifest)
    ensures LoadManifest(raw).Ok? <==>
            && 0 <= raw.zeroWords <= raw.fields.dataWords
            && exists payload :: Assembles(raw, payload) && Acceptable(raw.fields.(payload := payload))
    ensures LoadManifest(raw).Ok? ==>
              var m := LoadManifest(raw).value;
              Assembles(raw, m.payload) && m == raw.fields.(payload := m.payload)
  {
    if raw.explicit.Some? && raw.suffix.Some? && raw.zeroWords >= 0 {
      var payload := raw.explicit.value + seq(raw.zeroWords * WORD_BYTES, _ => 0) + raw.suffix.value;
      assert Assembles(raw, payload);
      if LoadManifest(raw).Ok? {
        assert Acceptable(raw.fields.(payload := payload));
      }
    }
  }

  /** Every manifest that loads builds an image that validates and holds its payload. */
  lemma {:induction false} LoadedBuilds(crc: Crc, raw: RawManifest)
    requires LoadManifest(raw).Ok?
    ensures var m := LoadManifest(raw).value;
            var d := BuildImage(crc, m);
            Acceptable(m) && d.Ok? && ValidateImage(crc, d.value) == Ok(m) && d.value[HEADER_BYTES..] == m.payload
  {
    BuiltIsAccepted(crc, LoadManifest(raw).value);
  }
}
