/**
  * Validation and lookup of stored programs (scripts/cor24-storage.py), and the proof that both
  * agree with the builder.
  */
module StorageCheck {
  import opened Bytes
  import opened Cor24Image
  import opened Storage

  // ----- What a valid store is -----

  function RecordAt(data: seq<byte>, i: nat): (r: seq<byte>)
    requires IndexEnd(i + 1) <= |data|
    ensures |r| == RECORD
  {
    data[IndexEnd(i)..IndexEnd(i) + RECORD]
  }

  function NameOf(record: seq<byte>): seq<byte>
    requires |record| == RECORD
  {
    UpToNul(record[..NAME])
  }

  function OffsetIn(record: seq<byte>): nat
    requires |record| == RECORD
  {
    ReadWord(record, 17)
  }

  function LengthIn(record: seq<byte>): nat
    requires |record| == RECORD
  {
    ReadWord(record, 20)
  }

  predicate HasImage(record: seq<byte>)
    requires |record| == RECORD
  {
    record[23] == 1
  }

  /** An extent past the index, in whole blocks, inside the store, holding a valid image. */
  predicate ExtentValid(crc: Crc, data: seq<byte>, indexEnd: nat, offset: nat, length: nat) {
    && indexEnd <= offset && offset % BLOCK == 0 && length != 0 && offset + length <= |data|
    && ValidateImage(crc, data[offset..offset + length]).Ok?
  }

  predicate RecordValid(crc: Crc, data: seq<byte>, count: nat, i: nat)
    requires i < count && IndexEnd(count) <= |data|
  {
    var r := RecordAt(data, i);
    && 0 in r[..NAME] && IsAscii(NameOf(r)) && NameOf(r) != []
    && r[16] as int == i && r[23] <= 1
    && (if HasImage(r) then ExtentValid(crc, data, IndexEnd(count), OffsetIn(r), LengthIn(r))
        else OffsetIn(r) == 0 && LengthIn(r) == 0)
  }

  predicate HeaderValid(crc: Crc, data: seq<byte>) {
    && |data| >= HEADER && |data| % BLOCK == 0 && data[1] == 1 && data[2..5] == SWT
    && IndexEnd(data[0]) <= |data|
    && crc(data[HEADER..IndexEnd(data[0])]) == ReadWord(data, 5)
  }

  predicate ValidStore(crc: Crc, data: seq<byte>) {
    && HeaderValid(crc, data)
    && var count := data[0] as int;
    && (forall i | 0 <= i < count :: RecordValid(crc, data, count, i))
    && (forall i, j | 0 <= i < j < count :: NameOf(RecordAt(data, i)) != NameOf(RecordAt(data, j)))
  }

  function Images(data: seq<byte>, n: nat): nat
    requires IndexEnd(n) <= |data|
  {
    if n == 0 then 0 else Images(data, n - 1) + if HasImage(RecordAt(data, n - 1)) then 1 else 0
  }

  datatype Summary = Summary(entries: nat, images: nat, blocks: nat)

  /** Accepts exactly the valid stores. */
  method ValidateStorage(crc: Crc, data: seq<byte>) returns (r: Result<Summary, StorageError>)
    ensures r.Ok? <==> ValidStore(crc, data)
    ensures r.Ok? ==> r.value == Summary(data[0], Images(data, data[0]), |data| / BLOCK)
  {
    hide NameOf, RecordValid, HeaderValid, RecordAt, HasImage;
    var bad := HeaderFault(crc, data);
    if bad.Some? {
      return Err(bad.value);
    }
    HeaderFits(crc, data);
    var count := data[0] as int;
    var names: set<seq<byte>> := {};
    var imageCount := 0;
    for ordinal := 0 to count
      invariant forall i | 0 <= i < ordinal :: NameOf(RecordAt(data, i)) in names
      invariant forall name | name in names :: exists i | 0 <= i < ordinal :: NameOf(RecordAt(data, i)) == name
      invariant forall i | 0 <= i < ordinal :: RecordValid(crc, data, count, i)
      invariant forall i, j | 0 <= i < j < ordinal :: NameOf(RecordAt(data, i)) != NameOf(RecordAt(data, j))
      invariant imageCount == Images(data, ordinal)
    {
      var fault := RecordFault(crc, data, count, ordinal);
      if fault.Some? {
        return Err(fault.value);
      }
      var name := NameOf(RecordAt(data, ordinal));
      if name in names {
        return Err(BadName);
      }
      names := names + {name};
      if HasImage(RecordAt(data, ordinal)) {
        imageCount := imageCount + 1;
      }
    }
    return Ok(Summary(count, imageCount, |data| / BLOCK));
  }

  lemma {:induction false} HeaderFits(crc: Crc, data: seq<byte>)
    requires HeaderValid(crc, data)
    ensures |data| >= HEADER && IndexEnd(data[0]) <= |data|
  {
  }

  /** The checks of the catalog as a whole. */
  method HeaderFault(crc: Crc, data: seq<byte>) returns (fault: Option<StorageError>)
    ensures fault == None <==> HeaderValid(crc, data)
  {
    hide ReadWord;
    if |data| < HEADER || |data| % BLOCK != 0 {
      return Some(IncompleteBlocks);
    }
    var count := data[0] as int;
    if data[1] != 1 || data[2..5] != SWT {
      return Some(BadHeader);
    }
    var indexEnd := HEADER + count * RECORD;
    if indexEnd > |data| {
      return Some(Truncated);
    }
    var expected := ReadWord(data, 5);
    if crc(data[HEADER..indexEnd]) != expected {
      return Some(CatalogChecksum);
    }
    return None;
  }

  /** The checks of one record by itself; a repeated name is found by the caller. */
  method RecordFault(crc: Crc, data: seq<byte>, count: nat, ordinal: nat) returns (fault: Option<StorageError>)
    requires ordinal < count && IndexEnd(count) <= |data|
    ensures fault == None <==> RecordValid(crc, data, count, ordinal)
  {
    hide OffsetIn, LengthIn, ExtentValid, NameOf, IsAscii, RecordAt;
    var indexEnd := IndexEnd(count);
    var record := RecordAt(data, ordinal);
    if 0 !in record[..NAME] {
      return Some(BadName);
    }
    var name := NameOf(record);
    if !IsAscii(name) || name == [] {
      return Some(BadName);
    }
    if record[16] as int != ordinal {
      return Some(BadOrdinal);
    }
    if record[23] > 1 {
      return Some(BadFlags);
    }
    fault := ExtentFault(crc, data, indexEnd, HasImage(record), OffsetIn(record), LengthIn(record));
  }

  method ExtentFault(crc: Crc, data: seq<byte>, indexEnd: nat, stored: bool, offset: nat, length: nat)
    returns (fault: Option<StorageError>)
    requires indexEnd % BLOCK == 0
    ensures fault == None <==> if stored then ExtentValid(crc, data, indexEnd, offset, length)
                               else offset == 0 && length == 0
  {
    hide ValidateImage;
    AlignExact(indexEnd);
    if stored {
      if offset < Align(indexEnd, BLOCK) || offset % BLOCK != 0 || length == 0 {
        return Some(BadExtent);
      }
      if offset + length > |data| {
        return Some(BadExtent);
      }
      if ValidateImage(crc, data[offset..offset + length]).Err? {
        return Some(BadImage);
      }
    } else if offset != 0 || length != 0 {
      return Some(BadExtent);
    }
    return None;
  }

  /** The first record of this name, from `from` on. */
  function FindName(data: seq<byte>, count: nat, name: seq<byte>, from: nat): (r: Option<nat>)
    requires IndexEnd(count) <= |data| && from <= count
    ensures r.Some? ==> from <= r.value < count && NameOf(RecordAt(data, r.value)) == name
    ensures forall i | from <= i < count && (r.None? || i < r.value) :: NameOf(RecordAt(data, i)) != name
    decreases count - from
  {
    if from == count then None
    else if NameOf(RecordAt(data, from)) == name then Some(from)
    else FindName(data, count, name, from + 1)
  }

  method CatalogEntry(crc: Crc, data: seq<byte>, requested: seq<byte>)
    returns (r: Result<(nat, nat, nat), StorageError>)
    ensures !ValidStore(crc, data) ==> r.Err?
    ensures ValidStore(crc, data) ==>
              r == match FindName(data, data[0], requested, 0)
                   case None => Err(NotFound)
                   case Some(i) =>
                     var record := RecordAt(data, i);
                     if HasImage(record) then Ok((i, OffsetIn(record), LengthIn(record))) else Err(NoImage)
  {
    hide ReadWord, UpToNul;
    var valid := ValidateStorage(crc, data);
    if valid.Err? {
      return Err(valid.error);
    }
    var count := data[0] as int;
    for ordinal := 0 to count
      invariant FindName(data, count, requested, 0) == FindName(data, count, requested, ordinal)
    {
      var start := HEADER + ordinal * RECORD;
      var record := data[start..start + RECORD];
      assert record == RecordAt(data, ordinal);
      var name := UpToNul(record[..NAME]);
      if name == requested {
        if record[23] != 1 {
          return Err(NoImage);
        }
        return Ok((ordinal, ReadWord(record, 17), ReadWord(record, 20)));
      }
    }
    return Err(NotFound);
  }

  // ----- The builder's output -----

  lemma {:induction false} NamePadded(name: seq<byte>, n: nat)
    requires 0 !in name && n > 0
    ensures UpToNul(name + Zeros(n)) == name
  {
    if name != [] {
      assert (name + Zeros(n))[1..] == name[1..] + Zeros(n);
      NamePadded(name[1..], n);
    }
  }

  lemma {:induction false} RecordReads(name: seq<byte>, ordinal: byte, x: Extent)
    requires |name| < NAME && 0 !in name && Fits(x)
    ensures var r := RecordBytes(name, ordinal, x);
            && 0 in r[..NAME] && NameOf(r) == name && r[16] == ordinal
            && OffsetIn(r) == x.offset && LengthIn(r) == |x.image|
            && r[23] == if x.image == [] then 0 else 1
  {
    hide ReadWord, UpToNul, Word;
    var r := RecordBytes(name, ordinal, x);
    NamePadded(name, NAME - |name|);
    assert r[..NAME] == name + Zeros(NAME - |name|) && r[15] == 0;
    assert r[17..20] == Word(x.offset) && r[20..23] == Word(|x.image|);
    WordReads(r, 17, x.offset);
    WordReads(r, 20, |x.image|);
    assert r[..NAME][15] == 0;
  }

  lemma {:induction false} RecordsAt(names: seq<seq<byte>>, extents: seq<Extent>, i: nat)
    requires |names| == |extents| <= 256 && Named(names) && i < |names|
    requires forall k | 0 <= k < |extents| :: Fits(extents[k])
    ensures Records(names, extents)[i * RECORD..i * RECORD + RECORD] == RecordBytes(names[i], i, extents[i])
    decreases |names|
  {
    hide RecordBytes;
    var n := |names| - 1;
    var all := Records(names, extents);
    if i < n {
      RecordsAt(names[..n], extents[..n], i);
      assert all[i * RECORD..i * RECORD + RECORD] == Records(names[..n], extents[..n])[i * RECORD..i * RECORD + RECORD];
    }
  }

  /** A built store: its header checks, and every record is the one written for its entry. */
  lemma {:induction false} BuiltIndex(crc: Crc, entries: seq<Entry>, alignment: nat, data: seq<byte>)
    requires alignment > 0 && alignment % BLOCK == 0 && WellNamed(entries) && Loaded(entries)
    requires Encodable(crc, entries, alignment) && Store(crc, entries, alignment) == Some(data)
    ensures HeaderValid(crc, data) && data[0] as int == |entries|
    ensures forall i: nat | i < |entries| ::
              RecordAt(data, i) == RecordBytes(entries[i].name, i, Extents(crc, entries, alignment)[i])
  {
    hide ReadWord, RecordBytes, Fill, ExtentOf, Cursor, Word, HeaderValid, Extents;
    var extents, names := Extents(crc, entries, alignment), Names(entries);
    var records := Records(names, extents);
    var header := CatalogHeader(crc, |entries|, records);
    ExtentsWellPlaced(crc, entries, alignment);
    FillSucceeds(header + records, extents, Cursor(crc, entries, alignment, |entries|));
    IndexIsValid(crc, |entries|, records, data);
    forall i: nat | i < |entries|
      ensures RecordAt(data, i) == RecordBytes(entries[i].name, i, extents[i])
    {
      RecordsAt(names, extents, i);
      SliceOfSlice(data, HEADER, IndexEnd(|entries|), i * RECORD, i * RECORD + RECORD);
    }
  }

  /** A header and as many records as it counts make a valid beginning of a store. */
  lemma {:induction false} IndexIsValid(crc: Crc, count: byte, records: seq<byte>, data: seq<byte>)
    requires |records| == count as int * RECORD && |data| % BLOCK == 0
    requires CatalogHeader(crc, count, records) + records <= data
    ensures HeaderValid(crc, data) && data[0] == count && data[HEADER..IndexEnd(count)] == records
  {
    hide ReadWord, Word;
    var header := CatalogHeader(crc, count, records);
    var index := header + records;
    assert header[5..8] == Word(crc(records)) && header[2..5] == SWT;
    assert index[5..8] == header[5..8] && index[2..5] == header[2..5] && index[8..] == records;
    SliceOfSlice(data, 0, |index|, 5, 8);
    SliceOfSlice(data, 0, |index|, 2, 5);
    SliceOfSlice(data, 0, |index|, 8, |index|);
    assert data[0..|index|] == index && data[0] == index[0] && data[1] == index[1];
    WordReads(data, 5, crc(records));
  }

  /** The extent of the record holds the bytes built from this manifest, and they validate as it. */
  predicate Serves(crc: Crc, data: seq<byte>, record: seq<byte>, m: Manifest)
    requires |record| == RECORD
  {
    var offset, length := OffsetIn(record), LengthIn(record);
    && offset + length <= |data|
    && BuildImage(crc, m) == Ok(data[offset..offset + length])
    && ValidateImage(crc, data[offset..offset + length]) == Ok(m)
  }

  /** Record `i` is valid and says where the image of its entry is. */
  ghost predicate RecordBuilt(crc: Crc, data: seq<byte>, count: nat, i: nat, e: Entry, x: Extent)
    requires i < count && IndexEnd(count) <= |data|
  {
    var r := RecordAt(data, i);
    && RecordValid(crc, data, count, i) && NameOf(r) == e.name
    && HasImage(r) == e.image.Some? && e.image.Some? == (x.image != [])
    && OffsetIn(r) == x.offset && LengthIn(r) == |x.image|
    && (e.image.Some? ==> Serves(crc, data, r, e.image.value))
  }

  /** The image of an entry is in the store at its extent, and validates. */
  lemma {:induction false} ExtentHolds(crc: Crc, entries: seq<Entry>, alignment: nat, data: seq<byte>, i: nat)
    requires alignment > 0 && alignment % BLOCK == 0 && WellNamed(entries) && Loaded(entries) && i < |entries|
    requires Encodable(crc, entries, alignment) && Store(crc, entries, alignment) == Some(data)
    requires entries[i].image.Some?
    ensures var x := Extents(crc, entries, alignment)[i];
            && x.image != [] && IndexEnd(|entries|) <= x.offset && x.offset % BLOCK == 0
            && x.offset + |x.image| <= |data| && data[x.offset..x.offset + |x.image|] == x.image
            && BuildImage(crc, entries[i].image.value) == Ok(x.image)
            && ValidateImage(crc, x.image) == Ok(entries[i].image.value)
  {
    hide RecordBytes, ValidateImage, BuildImage, Align, Cursor, Records, ImageOf;
    var extents := Extents(crc, entries, alignment);
    EntryImage(crc, entries, i);
    ExtentsWellPlaced(crc, entries, alignment);
    var records := Records(Names(entries), extents);
    FillHolds(CatalogHeader(crc, |entries|, records) + records, extents, i);
  }

  lemma {:induction false} BuiltRecord(crc: Crc, entries: seq<Entry>, alignment: nat, data: seq<byte>, i: nat)
    requires alignment > 0 && alignment % BLOCK == 0 && WellNamed(entries) && Loaded(entries) && i < |entries|
    requires Encodable(crc, entries, alignment) && Store(crc, entries, alignment) == Some(data)
    requires HeaderValid(crc, data) && data[0] as int == |entries| && IndexEnd(|entries|) <= |data|
    requires RecordAt(data, i) == RecordBytes(entries[i].name, i, Extents(crc, entries, alignment)[i])
    ensures RecordBuilt(crc, data, |entries|, i, entries[i], Extents(crc, entries, alignment)[i])
  {
    hide RecordBytes, ValidateImage, BuildImage, NameOf, OffsetIn, LengthIn, HeaderValid, Store, RecordAt, Extents,
         RecordBuilt, HasImage;
    var x := Extents(crc, entries, alignment)[i];
    assert Fits(x);
    NoImageNoExtent(crc, entries, alignment, i);
    if entries[i].image.Some? {
      ExtentHolds(crc, entries, alignment, data, i);
    }
    RecordReads(entries[i].name, i, x);
    FactsOfRecord(crc, data, |entries|, i, entries[i], x);
  }

  lemma {:induction false} FactsOfRecord(crc: Crc, data: seq<byte>, count: nat, i: nat, e: Entry, x: Extent)
    requires i < count && IndexEnd(count) <= |data|
    requires e.name != [] && IsAscii(e.name)
    requires var r := RecordAt(data, i);
             && 0 in r[..NAME] && NameOf(r) == e.name && r[16] as int == i && OffsetIn(r) == x.offset
             && LengthIn(r) == |x.image| && r[23] == if x.image == [] then 0 else 1
    requires e.image == None ==> x == Extent(0, [])
    requires e.image.Some? ==>
               && x.image != [] && IndexEnd(count) <= x.offset && x.offset % BLOCK == 0
               && x.offset + |x.image| <= |data| && data[x.offset..x.offset + |x.image|] == x.image
               && BuildImage(crc, e.image.value) == Ok(x.image) && ValidateImage(crc, x.image) == Ok(e.image.value)
    ensures RecordBuilt(crc, data, count, i, e, x)
  {
    hide ValidateImage, BuildImage, NameOf, OffsetIn, LengthIn, RecordAt, IsAscii;
  }

  lemma {:induction false} NoImageNoExtent(crc: Crc, entries: seq<Entry>, alignment: nat, i: nat)
    requires alignment > 0 && i < |entries|
    ensures entries[i].image == None ==> Extents(crc, entries, alignment)[i] == Extent(0, [])
  {
    hide Cursor;
  }

  /**
    * What is built validates; extents are disjoint and past the index; looking an entry up by
    * its name gives an extent that holds exactly the image built for it.
    */
  lemma {:induction false} BuiltStoreServes(crc: Crc, entries: seq<Entry>, alignment: nat, data: seq<byte>)
    requires alignment > 0 && alignment % BLOCK == 0 && WellNamed(entries) && Loaded(entries)
    requires Encodable(crc, entries, alignment) && Store(crc, entries, alignment) == Some(data)
    ensures ValidStore(crc, data) && data[0] as int == |entries|
    ensures forall i: nat | i < |entries| ::
              && FindName(data, |entries|, entries[i].name, 0) == Some(i)
              && HasImage(RecordAt(data, i)) == entries[i].image.Some?
              && (entries[i].image.Some? ==> Serves(crc, data, RecordAt(data, i), entries[i].image.value))
    ensures forall i: nat, j: nat | i < j < |entries| && entries[i].image.Some? && entries[j].image.Some? ::
              OffsetIn(RecordAt(data, i)) + LengthIn(RecordAt(data, i)) <= OffsetIn(RecordAt(data, j))
  {
    hide ReadWord, RecordBytes, Fill, ExtentOf, Cursor, ImageOf, UpToNul, ValidateImage, Align,
         Records, NameOf, OffsetIn, LengthIn, BuildImage, Store, Serves, RecordValid;
    var extents := Extents(crc, entries, alignment);
    BuiltIndex(crc, entries, alignment, data);
    ExtentsWellPlaced(crc, entries, alignment);
    forall i: nat | i < |entries|
      ensures RecordBuilt(crc, data, |entries|, i, entries[i], extents[i])
    {
      BuiltRecord(crc, entries, alignment, data, i);
    }
    forall i: nat | i < |entries|
      ensures RecordValid(crc, data, |entries|, i) && NameOf(RecordAt(data, i)) == entries[i].name
      ensures HasImage(RecordAt(data, i)) == entries[i].image.Some?
      ensures entries[i].image.Some? ==> Serves(crc, data, RecordAt(data, i), entries[i].image.value)
    {
      assert RecordBuilt(crc, data, |entries|, i, entries[i], extents[i]);
    }
    forall i: nat | i < |entries|
      ensures FindName(data, |entries|, entries[i].name, 0) == Some(i)
    {
      assert NameOf(RecordAt(data, i)) == entries[i].name;
    }
    forall i: nat, j: nat | i < j < |entries| && entries[i].image.Some? && entries[j].image.Some?
      ensures OffsetIn(RecordAt(data, i)) + LengthIn(RecordAt(data, i)) <= OffsetIn(RecordAt(data, j))
    {
      AlignIsLeast(|extents[i].image|, BLOCK);
      assert RecordBuilt(crc, data, |entries|, i, entries[i], extents[i]);
      assert RecordBuilt(crc, data, |entries|, j, entries[j], extents[j]);
    }
  }

  // ----- Stores, byte by byte -----

  /** A record of the catalog: name, ordinal, offset, length, flag. */
  predicate RecordIs(data: seq<byte>, i: nat, name: seq<byte>, offset: nat, length: nat, stored: bool)
    requires 8 + 24 * i + 24 <= |data|
  {
    var at := 8 + 24 * i;
    && |name| <= 15 && data[at..at + |name|] == name && data[at + |name|] == 0
    && data[at + 16] as int == i
    && BigEndian(data, at + 17) == offset && BigEndian(data, at + 20) == length
    && data[at + 23] == if stored then 1 else 0
  }

  /** Where everything stands in a built store. */
  lemma {:induction false} BuiltLayout(crc: Crc, entries: seq<Entry>, alignment: nat, data: seq<byte>, i: nat)
    requires alignment > 0 && alignment % BLOCK == 0 && WellNamed(entries) && Loaded(entries) && i < |entries|
    requires Encodable(crc, entries, alignment) && Store(crc, entries, alignment) == Some(data)
    ensures |data| >= 8 + 24 * |entries| && data[0] as int == |entries| && data[1] == 1
    ensures data[2..5] == [0x53, 0x57, 0x54] && BigEndian(data, 5) == crc(data[8..8 + 24 * |entries|])
    ensures RecordIs(data, i, entries[i].name, OffsetOf(crc, entries, alignment, i),
                     |ImageOf(crc, entries[i])|, entries[i].image.Some?)
  {
    hide RecordBytes, Cursor, Store, Loaded, ImageOf, RecordIs, BigEndian, HeaderValid;
    var x := Extents(crc, entries, alignment)[i];
    assert Fits(x);
    hide Encodable;
    BuiltIndex(crc, entries, alignment, data);
    HeaderInBytes(crc, data);
    EntryImage(crc, entries, i);
    assert data[2..5] == [data[2], data[3], data[4]];
    RecordStands(data, i, entries[i].name, x);
  }

  lemma {:induction false} RecordStands(data: seq<byte>, i: nat, name: seq<byte>, x: Extent)
    requires i < 256 && |name| < NAME && Fits(x) && IndexEnd(i + 1) <= |data|
    requires RecordAt(data, i) == RecordBytes(name, i, x)
    ensures RecordIs(data, i, name, x.offset, |x.image|, x.image != [])
  {
    hide RecordBytes;
    RecordParts(name, i, x);
    var at := 8 + 24 * i;
    assert data[at..at + 24] == RecordAt(data, i);
    SliceOfSlice(data, at, at + 24, 0, |name|);
    FieldsInBytes(data, at);
    assert data[at + |name|] == data[at..at + 24][|name|];
  }

  lemma {:induction false} RecordParts(name: seq<byte>, ordinal: byte, x: Extent)
    requires |name| < NAME && Fits(x)
    ensures var r := RecordBytes(name, ordinal, x);
            && r[0..|name|] == name && r[|name|] == 0 && r[16] == ordinal
            && BigEndian(r, 17) == x.offset && BigEndian(r, 20) == |x.image|
            && r[23] == if x.image != [] then 1 else 0
  {
    hide Word;
    var r := RecordBytes(name, ordinal, x);
    assert r[17..20] == Word(x.offset) && r[20..23] == Word(|x.image|);
    assert r[0..|name|] == name && r[|name|] == Zeros(NAME - |name|)[0] == 0;
    WordReads(r, 17, x.offset);
    WordReads(r, 20, |x.image|);
  }

  /** The name in the first sixteen bytes of record `i`. */
  function NameBytes(d: seq<byte>, i: nat): seq<byte>
    requires 8 + 24 * i + 24 <= |d|
  {
    UpToNul(d[8 + 24 * i..24 + 24 * i])
  }

  /** What a valid store is, in terms of its bytes: `count` records, each naming a whole image or none. */
  ghost predicate ValidBytes(crc: Crc, d: seq<byte>) {
    && |d| >= 8 && |d| % 8 == 0 && d[1] == 1 && d[2] == 0x53 && d[3] == 0x57 && d[4] == 0x54
    && var count := d[0] as int;
    && 8 + 24 * count <= |d| && BigEndian(d, 5) == crc(d[8..8 + 24 * count])
    && (forall i | 0 <= i < count :: ValidRecordBytes(crc, d, count, i))
    && (forall i, j | 0 <= i < j < count :: NameBytes(d, i) != NameBytes(d, j))
  }

  predicate ValidRecordBytes(crc: Crc, d: seq<byte>, count: nat, i: nat)
    requires i < count && 8 + 24 * count <= |d|
  {
    var at := 8 + 24 * i;
    var name := NameBytes(d, i);
    var offset, length := BigEndian(d, at + 17), BigEndian(d, at + 20);
    && 1 <= |name| <= 15 && (forall k | 0 <= k < |name| :: name[k] < 128) && d[at + 16] as int == i
    && (|| (d[at + 23] == 0 && offset == 0 && length == 0)
        || (d[at + 23] == 1 && 8 + 24 * count <= offset && offset % 8 == 0 && length > 0 && offset + length <= |d|
            && ValidateImage(crc, d[offset..offset + length]).Ok?))
  }

  lemma {:induction false} RecordInBytes(crc: Crc, d: seq<byte>, count: nat, i: nat)
    requires i < count && 8 + 24 * count <= |d|
    ensures RecordValid(crc, d, count, i) <==> ValidRecordBytes(crc, d, count, i)
    ensures NameOf(RecordAt(d, i)) == NameBytes(d, i)
  {
    hide UpToNul, ValidateImage, ReadWord, BigEndian;
    var at := 8 + 24 * i;
    var r := RecordAt(d, i);
    assert r == d[at..at + 24];
    SliceOfSlice(d, at, at + 24, 0, 16);
    assert r[..16] == r[0..16];
    FieldsInBytes(d, at);
    NulInside(r[..16]);
    AsciiInBytes(NameBytes(d, i));
  }

  lemma {:induction false} AsciiInBytes(name: seq<byte>)
    ensures IsAscii(name) <==> forall k | 0 <= k < |name| :: name[k] < 128
  {
  }

  lemma {:induction false} FieldsInBytes(d: seq<byte>, at: nat)
    requires at + 24 <= |d|
    ensures var r := d[at..at + 24];
            && ReadWord(r, 17) as int == BigEndian(r, 17) == BigEndian(d, at + 17)
            && ReadWord(r, 20) as int == BigEndian(r, 20) == BigEndian(d, at + 20)
            && r[16] == d[at + 16] && r[23] == d[at + 23]
  {
  }

  lemma {:induction false} NulInside(s: seq<byte>)
    requires |s| == 16
    ensures 0 in s <==> |UpToNul(s)| <= 15
    ensures |UpToNul(s)| <= 16
  {
    hide UpToNul;
    var name := UpToNul(s);
    if 0 !in s {
      AllBeforeNul(s);
    }
  }

  lemma {:induction false} AllBeforeNul(s: seq<byte>)
    requires 0 !in s
    ensures UpToNul(s) == s
  {
    if s != [] {
      assert s[0] in s;
      AllBeforeNul(s[1..]);
    }
  }

  lemma {:induction false} HeaderInBytes(crc: Crc, d: seq<byte>)
    ensures HeaderValid(crc, d) <==>
            && |d| >= 8 && |d| % 8 == 0 && d[1] == 1 && d[2] == 0x53 && d[3] == 0x57 && d[4] == 0x54
            && 8 + 24 * d[0] as int <= |d| && BigEndian(d, 5) == crc(d[8..8 + 24 * d[0] as int])
  {
    if |d| >= 8 {
      assert d[2..5] == [d[2], d[3], d[4]];
    }
  }

  /** The validator's rule is this, neither more nor less. */
  lemma {:induction false} ValidInBytes(crc: Crc, d: seq<byte>)
    ensures ValidStore(crc, d) <==> ValidBytes(crc, d)
  {
    hide RecordValid, ValidRecordBytes, NameOf, NameBytes, RecordAt, HeaderValid;
    HeaderInBytes(crc, d);
    if |d| >= 8 && 8 + 24 * d[0] as int <= |d| {
      var count := d[0] as int;
      forall i | 0 <= i < count
        ensures RecordValid(crc, d, count, i) <==> ValidRecordBytes(crc, d, count, i)
        ensures NameOf(RecordAt(d, i)) == NameBytes(d, i)
      {
        RecordInBytes(crc, d, count, i);
      }
    }
  }
}
