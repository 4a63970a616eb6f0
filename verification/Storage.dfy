/**
  * The block-aligned program store (scripts/cor24-storage.py): builder, validator and lookup,
  * three programs that share only the format, shown to agree.
  */
module Storage {
  import opened Arithmetic
  import opened Bytes
  import opened Cor24Image

  const BLOCK: nat := 8
  const HEADER: nat := 8
  const RECORD: nat := 24
  const NAME: nat := 16
  const SWT: seq<byte> := [0x53, 0x57, 0x54]

  /** A program of the catalog: its name, and the loaded manifest of its image if it has one. */
  datatype Entry = Entry(name: seq<byte>, image: Option<Manifest>)

  datatype StorageError =
    | OutOfRange | InternalLayout | IncompleteBlocks | BadHeader | Truncated | CatalogChecksum
    | BadName | BadOrdinal | BadFlags | BadExtent | BadImage | NoImage | NotFound

  predicate IsAscii(name: seq<byte>) {
    forall i | 0 <= i < |name| :: name[i] < 128
  }

  /** What the catalog generator guarantees of the entries it loads. */
  predicate WellNamed(entries: seq<Entry>) {
    && (forall i | 0 <= i < |entries| ::
          1 <= |entries[i].name| <= 15 && IsAscii(entries[i].name) && 0 !in entries[i].name)
    && (forall i, j | 0 <= i < j < |entries| :: entries[i].name != entries[j].name)
  }

  predicate Loaded(entries: seq<Entry>) {
    forall i | 0 <= i < |entries| :: entries[i].image.Some? ==> Acceptable(entries[i].image.value)
  }

  function Align(value: nat, boundary: nat): (r: nat)
    requires boundary > 0
  {
    (value + boundary - 1) / boundary * boundary
  }

  /** The least multiple of the boundary that is not below the value. */
  lemma {:induction false} AlignIsLeast(value: nat, boundary: nat)
    requires boundary > 0
    ensures value <= Align(value, boundary) < value + boundary
    ensures Align(value, boundary) % boundary == 0
  {
    var q := (value + boundary - 1) / boundary;
    QuotientBounds(value + boundary - 1, boundary);
    AlignIs(value, boundary, q);
    var p := boundary * q;
    hide Align;
    Remainder(p, boundary, q, 0);
  }

  lemma {:induction false} AlignIs(value: nat, boundary: nat, q: int)
    requires boundary > 0 && q == (value + boundary - 1) / boundary
    ensures Align(value, boundary) == boundary * q
  {
  }

  /** A multiple of a multiple of eight is a multiple of eight. */
  lemma {:induction false} AlignKeepsBlocks(value: nat, boundary: nat)
    requires boundary > 0 && boundary % BLOCK == 0
    ensures Align(value, boundary) % BLOCK == 0
  {
    var q, k := (value + boundary - 1) / boundary, boundary / BLOCK;
    assert boundary == BLOCK * k;
    Regroup(q, k);
  }

  lemma {:induction false} Regroup(q: nat, k: nat)
    ensures q * (BLOCK * k) == BLOCK * (q * k)
  {
  }

  // ----- The layout the builder computes -----

  function ImageOf(crc: Crc, e: Entry): seq<byte> {
    match e.image
    case None => []
    case Some(m) => match BuildImage(crc, m) case Ok(bytes) => bytes case Err(_) => []
  }

  lemma {:induction false} LoadedImage(crc: Crc, e: Entry)
    requires e.image.Some? && Acceptable(e.image.value)
    ensures |ImageOf(crc, e)| >= HEADER_BYTES && BuildImage(crc, e.image.value) == Ok(ImageOf(crc, e))
    ensures ValidateImage(crc, ImageOf(crc, e)) == Ok(e.image.value)
  {
    BuiltIsAccepted(crc, e.image.value);
  }

  function IndexEnd(count: nat): nat {
    HEADER + count * RECORD
  }

  /** The cursor after the first `i` entries: every image starts at a multiple of the alignment. */
  function Cursor(crc: Crc, entries: seq<Entry>, alignment: nat, i: nat): nat
    requires alignment > 0 && i <= |entries|
  {
    if i == 0 then Align(IndexEnd(|entries|), alignment)
    else
      var before := Cursor(crc, entries, alignment, i - 1);
      if entries[i - 1].image == None then before
      else Align(before + Align(|ImageOf(crc, entries[i - 1])|, BLOCK), alignment)
  }

  function OffsetOf(crc: Crc, entries: seq<Entry>, alignment: nat, i: nat): nat
    requires alignment > 0 && i < |entries|
  {
    if entries[i].image == None then 0 else Cursor(crc, entries, alignment, i)
  }

  lemma {:induction false} CursorInBlocks(crc: Crc, entries: seq<Entry>, alignment: nat, i: nat)
    requires alignment > 0 && alignment % BLOCK == 0 && i <= |entries|
    ensures Cursor(crc, entries, alignment, i) % BLOCK == 0
    ensures Cursor(crc, entries, alignment, i) >= IndexEnd(|entries|)
  {
    hide Align, Cursor, ImageOf;
    if i == 0 {
      CursorStep(crc, entries, alignment, 0);
      AlignIsLeast(IndexEnd(|entries|), alignment);
      AlignKeepsBlocks(IndexEnd(|entries|), alignment);
    } else {
      var before := Cursor(crc, entries, alignment, i - 1);
      var next := before + Align(|ImageOf(crc, entries[i - 1])|, BLOCK);
      CursorInBlocks(crc, entries, alignment, i - 1);
      CursorStep(crc, entries, alignment, i - 1);
      AlignIsLeast(|ImageOf(crc, entries[i - 1])|, BLOCK);
      AlignIsLeast(next, alignment);
      AlignKeepsBlocks(next, alignment);
    }
  }

  lemma {:induction false} CursorStep(crc: Crc, entries: seq<Entry>, alignment: nat, i: nat)
    requires alignment > 0 && i <= |entries|
    ensures Cursor(crc, entries, alignment, 0) == Align(IndexEnd(|entries|), alignment)
    ensures i < |entries| ==>
              var before, length := Cursor(crc, entries, alignment, i), |ImageOf(crc, entries[i])|;
              if entries[i].image == None then
                && Cursor(crc, entries, alignment, i + 1) == before
                && Extents(crc, entries, alignment)[i] == Extent(0, ImageOf(crc, entries[i]))
              else
                && Cursor(crc, entries, alignment, i + 1) == Align(before + Align(length, BLOCK), alignment)
                && Extents(crc, entries, alignment)[i] == Extent(before, ImageOf(crc, entries[i]))
  {
    hide Align, ImageOf;
  }

  /** An image with its padding ends where the cursor has gone by any later entry. */
  lemma {:induction false} CursorPasses(crc: Crc, entries: seq<Entry>, alignment: nat, i: nat, j: nat)
    requires alignment > 0 && i < j <= |entries| && entries[i].image.Some?
    ensures OffsetOf(crc, entries, alignment, i) + Align(|ImageOf(crc, entries[i])|, BLOCK)
            <= Cursor(crc, entries, alignment, j)
    decreases j
  {
    hide Align, ImageOf;
    var before := Cursor(crc, entries, alignment, j - 1);
    AlignIsLeast(before + Align(|ImageOf(crc, entries[j - 1])|, BLOCK), alignment);
    if i < j - 1 { CursorPasses(crc, entries, alignment, i, j - 1); }
  }

  /** Images start at multiples of the alignment, each at the least one past the index and past the blocks before it. */
  lemma {:induction false} OffsetsAreLeast(crc: Crc, entries: seq<Entry>, alignment: nat, i: nat)
    requires alignment > 0 && i <= |entries|
    ensures Cursor(crc, entries, alignment, i) % alignment == 0
    ensures i == 0 ==> IndexEnd(|entries|) <= Cursor(crc, entries, alignment, i) < IndexEnd(|entries|) + alignment
    ensures i > 0 && entries[i - 1].image == None ==>
              Cursor(crc, entries, alignment, i) == Cursor(crc, entries, alignment, i - 1)
    ensures i > 0 && entries[i - 1].image.Some? ==>
              var end := Cursor(crc, entries, alignment, i - 1) + Align(|ImageOf(crc, entries[i - 1])|, 8);
              end <= Cursor(crc, entries, alignment, i) < end + alignment
    decreases i
  {
    hide Align, ImageOf;
    if i == 0 {
      AlignIsLeast(IndexEnd(|entries|), alignment);
    } else {
      OffsetsAreLeast(crc, entries, alignment, i - 1);
      AlignIsLeast(Cursor(crc, entries, alignment, i - 1) + Align(|ImageOf(crc, entries[i - 1])|, BLOCK), alignment);
    }
  }

  // ----- The bytes the builder writes -----

  /** Where an image is stored; a program without an image has the empty extent at zero. */
  datatype Extent = Extent(offset: nat, image: seq<byte>)

  function ExtentOf(crc: Crc, entries: seq<Entry>, alignment: nat, i: nat): Extent
    requires alignment > 0 && i < |entries|
  {
    Extent(OffsetOf(crc, entries, alignment, i), ImageOf(crc, entries[i]))
  }

  function Extents(crc: Crc, entries: seq<Entry>, alignment: nat): (s: seq<Extent>)
    requires alignment > 0
    ensures |s| == |entries|
  {
    seq(|entries|, i requires 0 <= i < |entries| => ExtentOf(crc, entries, alignment, i))
  }

  /** Offset and length fit the three bytes each is stored in. */
  predicate Fits(x: Extent) {
    IsWord(x.offset) && IsWord(|x.image|)
  }

  function RecordBytes(name: seq<byte>, ordinal: byte, x: Extent): (s: seq<byte>)
    requires |name| < NAME && Fits(x)
    ensures |s| == RECORD
  {
    name + Zeros(NAME - |name|) + [ordinal] + Word(x.offset) + Word(|x.image|) + [if x.image == [] then 0 else 1]
  }

  predicate Named(names: seq<seq<byte>>) {
    forall i | 0 <= i < |names| :: |names[i]| < NAME
  }

  /** Records of the programs with these names and extents, in order. */
  function Records(names: seq<seq<byte>>, extents: seq<Extent>): (s: seq<byte>)
    requires |names| == |extents| <= 256 && Named(names) && forall i | 0 <= i < |extents| :: Fits(extents[i])
    ensures |s| == |names| * RECORD
  {
    if names == [] then []
    else
      var n := |names| - 1;
      Records(names[..n], extents[..n]) + RecordBytes(names[n], n, extents[n])
  }

  function CatalogHeader(crc: Crc, count: byte, records: seq<byte>): (s: seq<byte>)
    ensures |s| == HEADER
  {
    [count, 1] + SWT + Word(crc(records))
  }

  /** Zeros up to the offset, the image, and zeros to the end of its last block. */
  function Appended(store: seq<byte>, x: Extent): (s: seq<byte>)
    requires |store| <= x.offset && x.offset % BLOCK == 0
    ensures |s| == x.offset + Align(|x.image|, BLOCK) && |s| % BLOCK == 0
    ensures store <= s && |s| >= x.offset + |x.image| && s[x.offset..x.offset + |x.image|] == x.image
  {
    AlignIsLeast(|x.image|, BLOCK);
    store + Zeros(x.offset - |store|) + x.image + Zeros(Align(|x.image|, BLOCK) - |x.image|)
  }

  /** The index and then every image at its offset; `None` if one would start too early. */
  function Fill(index: seq<byte>, extents: seq<Extent>): Option<seq<byte>> {
    if extents == [] then Some(index)
    else
      var x := extents[|extents| - 1];
      match Fill(index, extents[..|extents| - 1])
      case None => None
      case Some(before) =>
        if x.image == [] then Some(before)
        else if |before| > x.offset || x.offset % BLOCK != 0 then None
        else Some(Appended(before, x))
  }

  predicate WellPlaced(start: nat, extents: seq<Extent>) {
    && (forall i | 0 <= i < |extents| && extents[i].image != [] ::
          extents[i].offset % BLOCK == 0 && start <= extents[i].offset)
    && (forall i, j | 0 <= i < j < |extents| && extents[i].image != [] && extents[j].image != [] ::
          extents[i].offset + Align(|extents[i].image|, BLOCK) <= extents[j].offset)
  }

  predicate EndsBy(extents: seq<Extent>, limit: nat) {
    forall i | 0 <= i < |extents| && extents[i].image != [] ::
      extents[i].offset + Align(|extents[i].image|, BLOCK) <= limit
  }

  /** Well-placed extents never collide, and the store ends where the last of them ends. */
  lemma {:induction false} FillSucceeds(index: seq<byte>, extents: seq<Extent>, limit: nat)
    requires |index| % BLOCK == 0 && WellPlaced(|index|, extents)
    requires |index| <= limit && EndsBy(extents, limit)
    ensures var r := Fill(index, extents);
            r.Some? && |r.value| % BLOCK == 0 && index <= r.value && |r.value| <= limit
    decreases |extents|
  {
    hide Align;
    if extents != [] {
      var front, x := extents[..|extents| - 1], extents[|extents| - 1];
      assert WellPlaced(|index|, front);
      if x.image == [] {
        FillSucceeds(index, front, limit);
      } else {
        FillSucceeds(index, front, x.offset);
      }
    }
  }

  /** Every image is in the store at its offset, whatever is stored after it. */
  lemma {:induction false} FillHolds(index: seq<byte>, extents: seq<Extent>, i: nat)
    requires Fill(index, extents).Some? && i < |extents| && extents[i].image != []
    ensures var s, x := Fill(index, extents).value, extents[i];
            x.offset + |x.image| <= |s| && s[x.offset..x.offset + |x.image|] == x.image
    decreases |extents|
  {
    hide Align, Appended;
    var n := |extents| - 1;
    if i < n {
      FillHolds(index, extents[..n], i);
      var before, s, x := Fill(index, extents[..n]).value, Fill(index, extents).value, extents[i];
      assert before <= s;
      SliceOfSlice(s, 0, |before|, x.offset, x.offset + |x.image|);
      assert s[0..|before|] == before;
    }
  }

  /** Position `p` belongs to an image. */
  ghost predicate InImage(extents: seq<Extent>, p: nat) {
    exists i :: 0 <= i < |extents| && extents[i].offset <= p < extents[i].offset + |extents[i].image|
  }

  /** Between the images is nothing but zeros. */
  lemma {:induction false} FillerIsZero(index: seq<byte>, extents: seq<Extent>, p: nat)
    requires Fill(index, extents).Some? && |index| <= p < |Fill(index, extents).value| && !InImage(extents, p)
    ensures Fill(index, extents).value[p] == 0
    decreases |extents|
  {
    if extents != [] {
      var front, x := extents[..|extents| - 1], extents[|extents| - 1];
      var before, s := Fill(index, front).value, Fill(index, extents).value;
      assert forall i | 0 <= i < |front| :: extents[i] == front[i];
      if p < |before| {
        FillerIsZero(index, front, p);
        assert before <= s;
      } else {
        AppendedZero(before, x, p);
      }
    }
  }

  /** The store ends with its index or with the last block of an image. */
  lemma {:induction false} FillEnds(index: seq<byte>, extents: seq<Extent>)
    requires Fill(index, extents).Some?
    ensures var size := |Fill(index, extents).value|;
            size == |index| || exists i ::
              0 <= i < |extents| && extents[i].image != [] && size == extents[i].offset + Align(|extents[i].image|, 8)
    decreases |extents|
  {
    hide Align, Appended;
    if extents != [] {
      var n := |extents| - 1;
      var front := extents[..n];
      FillEnds(index, front);
      assert forall i | 0 <= i < n :: extents[i] == front[i];
      if extents[n].image != [] {
        assert |Fill(index, extents).value| == extents[n].offset + Align(|extents[n].image|, BLOCK);
      }
    }
  }

  lemma {:induction false} AppendedZero(before: seq<byte>, x: Extent, p: nat)
    requires |before| <= x.offset && x.offset % BLOCK == 0 && |before| <= p < |Appended(before, x)|
    requires !(x.offset <= p < x.offset + |x.image|)
    ensures Appended(before, x)[p] == 0
  {
    AlignIsLeast(|x.image|, BLOCK);
    hide Align;
  }

  /** What the builder computes is well placed past the index. */
  lemma {:induction false} ExtentsWellPlaced(crc: Crc, entries: seq<Entry>, alignment: nat)
    requires alignment > 0 && alignment % BLOCK == 0 && Loaded(entries)
    ensures WellPlaced(IndexEnd(|entries|), Extents(crc, entries, alignment))
    ensures EndsBy(Extents(crc, entries, alignment), Cursor(crc, entries, alignment, |entries|))
    ensures IndexEnd(|entries|) <= Cursor(crc, entries, alignment, |entries|)
  {
    hide Align, ImageOf, Cursor;
    var extents := Extents(crc, entries, alignment);
    CursorInBlocks(crc, entries, alignment, |entries|);
    forall i | 0 <= i < |extents| && extents[i].image != []
      ensures extents[i].offset % BLOCK == 0 && IndexEnd(|entries|) <= extents[i].offset
      ensures entries[i].image.Some?
    {
      EntryImage(crc, entries, i);
      CursorInBlocks(crc, entries, alignment, i);
    }
    forall i, j | 0 <= i < j <= |extents| && extents[i].image != []
      ensures extents[i].offset + Align(|extents[i].image|, BLOCK) <= Cursor(crc, entries, alignment, j)
    {
      CursorPasses(crc, entries, alignment, i, j);
    }
  }

  lemma {:induction false} EntryImage(crc: Crc, entries: seq<Entry>, i: nat)
    requires i < |entries| && Loaded(entries)
    ensures entries[i].image == None <==> ImageOf(crc, entries[i]) == []
    ensures entries[i].image.Some? ==> BuildImage(crc, entries[i].image.value) == Ok(ImageOf(crc, entries[i]))
    ensures entries[i].image.Some? ==> ValidateImage(crc, ImageOf(crc, entries[i])) == Ok(entries[i].image.value)
  {
    if entries[i].image.Some? { LoadedImage(crc, entries[i]); }
  }

  // ----- The builder -----

  function Names(entries: seq<Entry>): (s: seq<seq<byte>>)
    ensures |s| == |entries|
  {
    seq(|entries|, i requires 0 <= i < |entries| => entries[i].name)
  }

  lemma {:induction false} NamesFit(entries: seq<Entry>)
    requires WellNamed(entries)
    ensures Named(Names(entries))
  {
  }

  /** Counts, offsets and lengths fit the bytes they are stored in. */
  predicate Encodable(crc: Crc, entries: seq<Entry>, alignment: nat)
    requires alignment > 0
  {
    |entries| <= 255 && forall i | 0 <= i < |entries| :: Fits(Extents(crc, entries, alignment)[i])
  }

  /** The store of these entries: header, records and images. */
  function Store(crc: Crc, entries: seq<Entry>, alignment: nat): Option<seq<byte>>
    requires alignment > 0 && WellNamed(entries) && Encodable(crc, entries, alignment)
  {
    var extents := Extents(crc, entries, alignment);
    var records := Records(Names(entries), extents);
    Fill(CatalogHeader(crc, |entries|, records) + records, extents)
  }

  /** Never an internal layout error; fails exactly when a number does not fit its field. */
  method BuildStorage(crc: Crc, entries: seq<Entry>, alignment: nat) returns (r: Result<seq<byte>, StorageError>)
    requires alignment > 0 && alignment % BLOCK == 0 && WellNamed(entries) && Loaded(entries)
    ensures r.Ok? <==> Encodable(crc, entries, alignment)
    ensures r.Err? ==> r.error == OutOfRange
    ensures r.Ok? ==> Some(r.value) == Store(crc, entries, alignment)
  {
    hide RecordBytes, Loaded, Fill, Cursor, ExtentOf, Extents, CatalogHeader, Names, WellNamed, WellPlaced, EndsBy;
    NamesFit(entries);
    var placed := PlaceImages(crc, entries, alignment);
    if placed.Err? || |entries| > 255 {
      return Err(OutOfRange);
    }
    var (records, images) := placed.value;
    ExtentsWellPlaced(crc, entries, alignment);
    var recordBytes := Join(records, Names(entries), images);
    var index := CatalogHeader(crc, |entries|, recordBytes) + recordBytes;
    r := WriteImages(index, images, Cursor(crc, entries, alignment, |entries|));
  }

  /** The first loop: a record and an extent for every entry. */
  method PlaceImages(crc: Crc, entries: seq<Entry>, alignment: nat)
    returns (r: Result<(seq<seq<byte>>, seq<Extent>), StorageError>)
    requires alignment > 0 && WellNamed(entries) && Loaded(entries)
    ensures r.Ok? <==> |entries| <= 256 && forall i | 0 <= i < |entries| :: Fits(Extents(crc, entries, alignment)[i])
    ensures r.Ok? ==> r.value.1 == Extents(crc, entries, alignment) && |r.value.0| == |entries|
    ensures r.Ok? ==> forall i | 0 <= i < |entries| ::
                        r.value.0[i] == RecordBytes(Names(entries)[i], i, r.value.1[i])
  {
    hide Align, ImageOf, RecordBytes, Loaded, Cursor, Extents, BuildImage;
    CursorStep(crc, entries, alignment, 0);
    ghost var all := Extents(crc, entries, alignment);
    var cursor := Align(IndexEnd(|entries|), alignment);
    var records: seq<seq<byte>> := [];
    var images: seq<Extent> := [];
    for ordinal := 0 to |entries|
      invariant |records| == |images| == ordinal <= 256 && cursor == Cursor(crc, entries, alignment, ordinal)
      invariant forall i | 0 <= i < ordinal :: Fits(all[i]) && images[i] == all[i]
      invariant forall i | 0 <= i < ordinal :: records[i] == RecordBytes(entries[i].name, i, all[i])
    {
      var entry := entries[ordinal];
      var imageOffset, image := 0, [];
      EntryImage(crc, entries, ordinal);
      CursorStep(crc, entries, alignment, ordinal);
      if entry.image.Some? {
        image := BuildImage(crc, entry.image.value).value;
        imageOffset := cursor;
        cursor := cursor + Align(|image|, BLOCK);
        cursor := Align(cursor, alignment);
      }
      var x := Extent(imageOffset, image);
      assert x == all[ordinal];
      if ordinal > 255 || !Fits(x) {
        return Err(OutOfRange);
      }
      records := records + [RecordBytes(entry.name, ordinal, x)];
      images := images + [x];
    }
    assert images == all;
    return Ok((records, images));
  }

  method Join(records: seq<seq<byte>>, ghost names: seq<seq<byte>>, ghost extents: seq<Extent>)
    returns (bytes: seq<byte>)
    requires |records| == |names| == |extents| <= 256 && Named(names)
    requires forall i | 0 <= i < |extents| :: Fits(extents[i])
    requires forall i | 0 <= i < |records| :: records[i] == RecordBytes(names[i], i, extents[i])
    ensures bytes == Records(names, extents)
  {
    hide RecordBytes;
    bytes := [];
    for i := 0 to |records|
      invariant bytes == Records(names[..i], extents[..i])
    {
      assert names[..i + 1][..i] == names[..i] && extents[..i + 1][..i] == extents[..i];
      bytes := bytes + records[i];
    }
    assert names[..|names|] == names && extents[..|extents|] == extents;
  }

  /** The images, each padded to a whole block, at their offsets. */
  method WriteImages(index: seq<byte>, images: seq<Extent>, ghost limit: nat)
    returns (r: Result<seq<byte>, StorageError>)
    requires |index| % BLOCK == 0 && WellPlaced(|index|, images) && |index| <= limit && EndsBy(images, limit)
    ensures r.Ok? && Fill(index, images) == Some(r.value)
  {
    hide Align, Appended;
    AlignExact(|index|);
    var output := index + Zeros(Align(|index|, BLOCK) - |index|);
    assert output == index;
    for i := 0 to |images|
      invariant Fill(index, images[..i]) == Some(output)
    {
      var x := images[i];
      assert images[..i + 1][..i] == images[..i];
      FillSucceeds(index, images[..i], if x.image == [] then limit else x.offset);
      if x.image == [] {
        continue;
      }
      if |output| > x.offset {
        return Err(InternalLayout);
      }
      ghost var before := output;
      output := output + Zeros(x.offset - |output|);
      output := output + x.image;
      AlignIsLeast(|output|, BLOCK);
      output := output + Zeros(Align(|output|, BLOCK) - |output|);
      AppendedInSteps(before, x, output);
    }
    assert images[..|images|] == images;
    return Ok(output);
  }

  lemma {:induction false} AlignExact(value: nat)
    requires value % BLOCK == 0
    ensures Align(value, BLOCK) == value
  {
  }

  lemma {:induction false} AppendedInSteps(before: seq<byte>, x: Extent, output: seq<byte>)
    requires |before| <= x.offset && x.offset % BLOCK == 0
    requires var n := x.offset + |x.image|;
             && n <= Align(n, BLOCK)
             && output == before + Zeros(x.offset - |before|) + x.image + Zeros(Align(n, BLOCK) - n)
    ensures output == Appended(before, x)
  {
    assert Align(x.offset + |x.image|, BLOCK) == x.offset + Align(|x.image|, BLOCK);
  }
}
