/**
  * The layout of a store as regions in address order (scripts/storage-layout.py), and exactly
  * when those regions tile the address space.
  */
module StorageLayout {
  import opened Bytes
  import opened Cor24Image
  import opened Storage
  import opened StorageCheck

  const ID_HEADER: nat := 1
  const ID_CATALOG: nat := 2
  const ID_FREE: nat := 3
  const ID_IMAGE_BASE: nat := 100
  const ID_PADDING_BASE: nat := 200

  datatype Record = Record(ordinal: nat, name: seq<byte>, offset: nat, length: nat, hasImage: bool)

  datatype Kind = HeaderKind | CatalogKind | PaddingKind | ImageKind | FreeKind

  /** A region; `owner` is the program it belongs to, if any. */
  datatype Row = Row(id: nat, kind: Kind, owner: Option<seq<byte>>, start: nat, length: nat)

  function RecordFrom(data: seq<byte>, ordinal: nat): Record
    requires IndexEnd(ordinal + 1) <= |data|
  {
    var r := RecordAt(data, ordinal);
    Record(ordinal, NameOf(r), OffsetIn(r), LengthIn(r), r[23] % 2 == 1)
  }

  /** Every catalog record, in ordinal order. */
  method CatalogRecords(data: seq<byte>) returns (records: seq<Record>)
    requires |data| > 0 && IndexEnd(data[0]) <= |data|
    ensures |records| == data[0] as int
    ensures forall i | 0 <= i < |records| :: records[i] == RecordFrom(data, i)
  {
    hide RecordFrom;
    records := [];
    for ordinal := 0 to data[0] as int
      invariant |records| == ordinal
      invariant forall i | 0 <= i < ordinal :: records[i] == RecordFrom(data, i)
    {
      records := records + [RecordFrom(data, ordinal)];
    }
  }

  // ----- Images in address order -----

  function Stored(records: seq<Record>): seq<Record> {
    if records == [] then []
    else (if records[0].hasImage then [records[0]] else []) + Stored(records[1..])
  }

  function Insert(r: Record, s: seq<Record>): seq<Record> {
    if s == [] || r.offset <= s[0].offset then [r] + s else [s[0]] + Insert(r, s[1..])
  }

  /** Stable sorting by offset. */
  function SortByOffset(s: seq<Record>): seq<Record> {
    if s == [] then [] else Insert(s[0], SortByOffset(s[1..]))
  }

  predicate Sorted(s: seq<Record>) {
    s == [] || ((forall b | b in s[1..] :: s[0].offset <= b.offset) && Sorted(s[1..]))
  }

  predicate DistinctOrdinals(s: seq<Record>) {
    s == [] || ((forall b | b in s[1..] :: s[0].ordinal != b.ordinal) && DistinctOrdinals(s[1..]))
  }

  lemma {:induction false} InsertMembers(r: Record, s: seq<Record>)
    ensures forall x :: x in Insert(r, s) <==> x == r || x in s
    decreases |s|
  {
    if s != [] {
      InsertMembers(r, s[1..]);
      assert forall x :: x in s <==> x == s[0] || x in s[1..];
    }
  }

  lemma {:induction false} InsertSorts(r: Record, s: seq<Record>)
    requires Sorted(s) && DistinctOrdinals(s) && forall b | b in s :: r.ordinal != b.ordinal
    ensures Sorted(Insert(r, s)) && DistinctOrdinals(Insert(r, s))
    decreases |s|
  {
    if s == [] {
    } else if r.offset <= s[0].offset {
      assert ([r] + s)[1..] == s;
      assert forall b | b in s :: b == s[0] || b in s[1..];
    } else {
      var t := Insert(r, s[1..]);
      InsertSorts(r, s[1..]);
      InsertMembers(r, s[1..]);
      assert ([s[0]] + t)[1..] == t;
    }
  }

  /** Sorting loses no record and adds none. */
  lemma {:induction false} SortSorts(s: seq<Record>)
    requires DistinctOrdinals(s)
    ensures Sorted(SortByOffset(s)) && DistinctOrdinals(SortByOffset(s))
    ensures forall x :: x in SortByOffset(s) <==> x in s
    decreases |s|
  {
    if s != [] {
      SortSorts(s[1..]);
      InsertSorts(s[0], SortByOffset(s[1..]));
      InsertMembers(s[0], SortByOffset(s[1..]));
      assert forall x :: x in s <==> x == s[0] || x in s[1..];
    }
  }

  // ----- The walk -----

  /** The row of one image, after the padding that its alignment costs. */
  function RowsOf(r: Record, cursor: nat): seq<Row> {
    var image := Row(ID_IMAGE_BASE + r.ordinal, ImageKind, Some(r.name), r.offset, r.length);
    if r.offset > cursor
    then [Row(ID_PADDING_BASE + r.ordinal, PaddingKind, Some(r.name), cursor, r.offset - cursor), image]
    else [image]
  }

  function ImageRows(stored: seq<Record>, cursor: nat): seq<Row> {
    if stored == [] then []
    else RowsOf(stored[0], cursor) + ImageRows(stored[1..], stored[0].offset + stored[0].length)
  }

  function LastEnd(stored: seq<Record>, cursor: nat): nat {
    if stored == [] then cursor else stored[|stored| - 1].offset + stored[|stored| - 1].length
  }

  function HeadRows(indexEnd: nat): seq<Row>
    requires indexEnd >= HEADER
  {
    [Row(ID_HEADER, HeaderKind, None, 0, HEADER), Row(ID_CATALOG, CatalogKind, None, HEADER, indexEnd - HEADER)]
  }

  function TailRows(end: nat, total: nat): seq<Row> {
    if end < total then [Row(ID_FREE, FreeKind, None, end, total - end)] else []
  }

  function Rows(records: seq<Record>, total: nat): seq<Row> {
    var indexEnd := IndexEnd(|records|);
    var stored := SortByOffset(Stored(records));
    HeadRows(indexEnd) + ImageRows(stored, indexEnd) + TailRows(LastEnd(stored, indexEnd), total)
  }

  method Walk(records: seq<Record>, total: nat) returns (rows: seq<Row>)
    ensures rows == Rows(records, total)
  {
    var indexEnd := HEADER + |records| * RECORD;
    var stored := SortByOffset(Stored(records));
    rows := WalkImages([Row(ID_HEADER, HeaderKind, None, 0, HEADER),
                        Row(ID_CATALOG, CatalogKind, None, HEADER, indexEnd - HEADER)], stored, indexEnd);
    var cursor := LastEnd(stored, indexEnd);
    if cursor < total {
      rows := rows + [Row(ID_FREE, FreeKind, None, cursor, total - cursor)];
    }
  }

  method WalkImages(head: seq<Row>, stored: seq<Record>, indexEnd: nat) returns (rows: seq<Row>)
    ensures rows == head + ImageRows(stored, indexEnd)
  {
    hide RowsOf;
    rows := head;
    var cursor: nat := indexEnd;
    for i := 0 to |stored|
      invariant rows + ImageRows(stored[i..], cursor) == head + ImageRows(stored, indexEnd)
    {
      var record := stored[i];
      ghost var before, at := rows, cursor;
      if record.offset > cursor {
        rows := rows + [Row(ID_PADDING_BASE + record.ordinal, PaddingKind, Some(record.name), cursor,
                            record.offset - cursor)];
      }
      rows := rows + [Row(ID_IMAGE_BASE + record.ordinal, ImageKind, Some(record.name), record.offset, record.length)];
      cursor := record.offset + record.length;
      assert stored[i..][1..] == stored[i + 1..];
      RowsInSteps(record, at);
      assert rows == before + RowsOf(record, at);
      assert before + (RowsOf(record, at) + ImageRows(stored[i + 1..], cursor)) ==
             rows + ImageRows(stored[i + 1..], cursor);
    }
    assert stored[|stored|..] == [];
    assert rows + [] == rows;
  }

  lemma {:induction false} RowsInSteps(r: Record, cursor: nat)
    ensures var image := Row(ID_IMAGE_BASE + r.ordinal, ImageKind, Some(r.name), r.offset, r.length);
            RowsOf(r, cursor) ==
            (if r.offset > cursor
             then [Row(ID_PADDING_BASE + r.ordinal, PaddingKind, Some(r.name), cursor, r.offset - cursor)] else []) +
            [image]
  {
  }

  // ----- Tiling -----

  /** The rows follow one another without gap or overlap from `from` to `to`. */
  predicate Tiles(rows: seq<Row>, from: nat, to: nat)
    decreases |rows|
  {
    if rows == [] then from == to
    else rows[0].start == from && Tiles(rows[1..], from + rows[0].length, to)
  }

  predicate Apart(a: Record, b: Record) {
    a.offset + a.length <= b.offset || b.offset + b.length <= a.offset
  }

  /** The stored extents lie past the index and do not meet. */
  ghost predicate Disjoint(s: seq<Record>, from: nat) {
    && (forall a | a in s :: from <= a.offset)
    && (forall a, b | a in s && b in s && a.ordinal != b.ordinal :: Apart(a, b))
  }

  ghost predicate Positive(s: seq<Record>) {
    forall a | a in s :: a.length > 0
  }

  /** Each extent begins no earlier than the one before it ends. */
  ghost predicate Chained(s: seq<Record>, cursor: nat)
    decreases |s|
  {
    s == [] || (cursor <= s[0].offset && Chained(s[1..], s[0].offset + s[0].length))
  }

  /** In address order, extents that do not meet are just those that follow one another. */
  lemma {:induction false} DisjointIsChained(s: seq<Record>, cursor: nat)
    requires Sorted(s) && DistinctOrdinals(s) && Positive(s)
    ensures Disjoint(s, cursor) <==> Chained(s, cursor)
    decreases |s|
  {
    if s != [] {
      var a, rest := s[0], s[1..];
      assert forall b :: b in s <==> b == a || b in rest;
      DisjointIsChained(rest, a.offset + a.length);
      if Disjoint(s, cursor) {
        assert forall b | b in rest :: Apart(a, b) && b.length > 0;
      }
      if Chained(s, cursor) {
        assert a.length > 0 && forall b | b in rest :: a.offset + a.length <= b.offset;
      }
    }
  }

  lemma {:induction false} TilesAppend(a: seq<Row>, b: seq<Row>, from: nat, middle: nat, to: nat)
    requires Tiles(a, from, middle)
    ensures Tiles(a + b, from, to) <==> Tiles(b, middle, to)
    decreases |a|
  {
    if a == [] {
      assert a + b == b;
    } else {
      assert (a + b)[1..] == a[1..] + b;
      TilesAppend(a[1..], b, from + a[0].length, middle, to);
    }
  }

  /** The image rows, with whatever follows, tile from the cursor just when the images are chained. */
  lemma {:induction false} ImagesTile(stored: seq<Record>, cursor: nat, tail: seq<Row>, to: nat)
    requires Tiles(tail, LastEnd(stored, cursor), to)
    ensures Tiles(ImageRows(stored, cursor) + tail, cursor, to) <==> Chained(stored, cursor)
    decreases |stored|
  {
    hide RowsOf, ImageRows, Tiles;
    if stored == [] {
      NoRows(cursor);
      assert [] + tail == tail;
    } else {
      var r, rest := stored[0], stored[1..];
      var end := r.offset + r.length;
      ImagesTile(rest, end, tail, to);
      var next := ImageRows(rest, end) + tail;
      RowsSplit(stored, cursor);
      assert ImageRows(stored, cursor) + tail == RowsOf(r, cursor) + next;
      RowsOfTile(r, cursor, next, to);
    }
  }

  lemma {:induction false} RowsOfTile(r: Record, cursor: nat, next: seq<Row>, to: nat)
    ensures Tiles(RowsOf(r, cursor) + next, cursor, to) <==>
            cursor <= r.offset && Tiles(next, r.offset + r.length, to)
  {
    var rows := RowsOf(r, cursor);
    if cursor <= r.offset {
      if r.offset > cursor { assert rows[1..][1..] == []; } else { assert rows[1..] == []; }
      TilesAppend(rows, next, cursor, r.offset + r.length, to);
    }
  }

  lemma {:induction false} NoRows(cursor: nat)
    ensures ImageRows([], cursor) == []
  {
  }

  lemma {:induction false} RowsSplit(stored: seq<Record>, cursor: nat)
    requires stored != []
    ensures ImageRows(stored, cursor)
            == RowsOf(stored[0], cursor) + ImageRows(stored[1..], stored[0].offset + stored[0].length)
  {
  }

  // ----- Records with and without an image -----

  lemma {:induction false} StoredMembers(records: seq<Record>)
    ensures forall r :: r in Stored(records) <==> r in records && r.hasImage
    decreases |records|
  {
    if records != [] {
      StoredMembers(records[1..]);
      assert records == [records[0]] + records[1..];
    }
  }

  /** Records as the catalog lists them: each ordinal is its position. */
  predicate Numbered(records: seq<Record>, first: nat) {
    forall i | 0 <= i < |records| :: records[i].ordinal == first + i
  }

  lemma {:induction false} StoredDistinct(records: seq<Record>, first: nat)
    requires Numbered(records, first)
    ensures DistinctOrdinals(Stored(records)) && forall r | r in Stored(records) :: r.ordinal >= first
    decreases |records|
  {
    if records != [] {
      var r, rest := records[0], records[1..];
      assert forall i | 0 <= i < |rest| :: rest[i] == records[i + 1];
      StoredDistinct(rest, first + 1);
      if r.hasImage { assert ([r] + Stored(rest))[1..] == Stored(rest); }
      else { assert [] + Stored(rest) == Stored(rest); }
    }
  }

  /** The stored records in address order: sorted, distinct, and the same records. */
  lemma {:induction false} AddressOrder(records: seq<Record>)
    requires Numbered(records, 0)
    ensures var stored := SortByOffset(Stored(records));
            && Sorted(stored) && DistinctOrdinals(stored)
            && forall r :: r in stored <==> r in records && r.hasImage
  {
    hide SortByOffset, Stored;
    StoredMembers(records);
    StoredDistinct(records, 0);
    SortSorts(Stored(records));
  }

  // ----- Main results -----

  /** The end of the layout: the capacity, or the last extent where that goes further. */
  function LayoutEnd(records: seq<Record>, total: nat): nat {
    var end := LastEnd(SortByOffset(Stored(records)), IndexEnd(|records|));
    if end < total then total else end
  }

  ghost predicate ImagesDisjoint(records: seq<Record>) {
    && (forall a | a in records && a.hasImage :: IndexEnd(|records|) <= a.offset)
    && (forall a, b | a in records && b in records && a.hasImage && b.hasImage && a.ordinal != b.ordinal :: Apart(a, b))
  }

  /** The rows tile the store exactly when the stored extents are disjoint and past the index. */
  lemma {:induction false} RowsTile(records: seq<Record>, total: nat)
    requires Numbered(records, 0)
    requires forall a | a in records && a.hasImage :: a.length > 0
    ensures Tiles(Rows(records, total), 0, LayoutEnd(records, total)) <==> ImagesDisjoint(records)
  {
    hide SortByOffset, Stored, ImageRows;
    AddressOrder(records);
    var indexEnd := IndexEnd(|records|);
    var stored := SortByOffset(Stored(records));
    var end := LastEnd(stored, indexEnd);
    var to := LayoutEnd(records, total);
    var head, tail := HeadRows(indexEnd), TailRows(end, total);
    assert Tiles(tail, end, to);
    DisjointIsChained(stored, indexEnd);
    ImagesTile(stored, indexEnd, tail, to);
    assert head[1..][1..] == [] && Tiles(head[1..][1..], indexEnd, indexEnd);
    assert Tiles(head, 0, indexEnd);
    hide HeadRows, TailRows;
    TilesAppend(head, ImageRows(stored, indexEnd) + tail, 0, indexEnd, to);
    assert head + (ImageRows(stored, indexEnd) + tail) == Rows(records, total);
  }

  /** The targets of the edges that `relationships` emits. */
  function ImageIds(rows: seq<Row>): seq<nat> {
    if rows == [] then []
    else (if rows[0].kind == ImageKind then [rows[0].id] else []) + ImageIds(rows[1..])
  }

  function Ids(rows: seq<Row>): (s: seq<nat>)
    ensures |s| == |rows|
  {
    seq(|rows|, i requires 0 <= i < |rows| => rows[i].id)
  }

  predicate Distinct(ids: seq<nat>) {
    forall i, j | 0 <= i < j < |ids| :: ids[i] != ids[j]
  }

  lemma {:induction false} DistinctAppend(a: seq<nat>, b: seq<nat>)
    requires Distinct(a) && Distinct(b) && forall x | x in a :: x !in b
    ensures Distinct(a + b)
  {
    forall i, j | 0 <= i < j < |a + b|
      ensures (a + b)[i] != (a + b)[j]
    {
      if i < |a| <= j { assert a[i] in a && b[j - |a|] in b; }
    }
  }

  /** A row made for a stored record: its image, or the padding before it. */
  predicate RowFor(row: Row, r: Record) {
    && row.length > 0 && row.owner == Some(r.name)
    && (if row.kind == ImageKind
        then row.id == ID_IMAGE_BASE + r.ordinal && row.start == r.offset && row.length == r.length
        else row.kind == PaddingKind && row.id == ID_PADDING_BASE + r.ordinal)
  }

  lemma {:induction false} RowsAreFor(stored: seq<Record>, cursor: nat)
    requires Positive(stored)
    ensures forall row | row in ImageRows(stored, cursor) :: exists r :: r in stored && RowFor(row, r)
    decreases |stored|
  {
    if stored != [] {
      var r, rest := stored[0], stored[1..];
      assert forall b | b in rest :: b in stored;
      RowsAreFor(rest, r.offset + r.length);
      assert r in stored && r.length > 0;
      assert forall row | row in RowsOf(r, cursor) :: RowFor(row, r);
    }
  }

  function TargetIds(stored: seq<Record>): seq<nat> {
    if stored == [] then [] else [ID_IMAGE_BASE + stored[0].ordinal] + TargetIds(stored[1..])
  }

  /** Every stored record has one image row, in address order. */
  lemma {:induction false} ImageIdsAre(stored: seq<Record>, cursor: nat)
    ensures ImageIds(ImageRows(stored, cursor)) == TargetIds(stored)
    decreases |stored|
  {
    hide RowsOf, ImageIds;
    if stored == [] {
      NoIds(ImageRows(stored, cursor));
    } else {
      var r, rest := stored[0], stored[1..];
      ImageIdsAre(rest, r.offset + r.length);
      IdsAppend(RowsOf(r, cursor), ImageRows(rest, r.offset + r.length));
      OwnImageId(r, cursor);
    }
  }

  lemma {:induction false} OwnImageId(r: Record, cursor: nat)
    ensures ImageIds(RowsOf(r, cursor)) == [ID_IMAGE_BASE + r.ordinal]
  {
    var own := RowsOf(r, cursor);
    if r.offset > cursor {
      assert own[1..] == [own[1]] && own[1..][1..] == [];
      assert ImageIds(own[1..]) == [own[1].id];
    } else {
      assert own[1..] == [];
    }
  }

  /** The extent with this ordinal starts after the end of the one before it, in address order. */
  predicate IsPadded(stored: seq<Record>, cursor: nat, ordinal: nat)
    decreases |stored|
  {
    stored != [] &&
    ((stored[0].ordinal == ordinal && cursor < stored[0].offset) ||
     IsPadded(stored[1..], stored[0].offset + stored[0].length, ordinal))
  }

  /** Where the ids of the rows come from. */
  lemma {:induction false} RowKinds(stored: seq<Record>, cursor: nat)
    ensures forall row | row in ImageRows(stored, cursor) ::
              if row.kind == ImageKind then exists r :: r in stored && row.id == ID_IMAGE_BASE + r.ordinal
              else row.kind == PaddingKind && row.id >= ID_PADDING_BASE &&
                   IsPadded(stored, cursor, row.id - ID_PADDING_BASE)
    decreases |stored|
  {
    if stored != [] {
      var r, rest := stored[0], stored[1..];
      assert r in stored && forall b | b in rest :: b in stored;
      RowKinds(rest, r.offset + r.length);
    }
  }

  lemma {:induction false} PaddingShown(stored: seq<Record>, cursor: nat, ordinal: nat) returns (row: Row)
    requires IsPadded(stored, cursor, ordinal)
    ensures row in ImageRows(stored, cursor) && row.kind == PaddingKind && row.id == ID_PADDING_BASE + ordinal
    decreases |stored|
  {
    var r := stored[0];
    if r.ordinal == ordinal && cursor < r.offset {
      row := RowsOf(r, cursor)[0];
    } else {
      row := PaddingShown(stored[1..], r.offset + r.length, ordinal);
    }
  }

  lemma {:induction false} ImageShown(stored: seq<Record>, cursor: nat, r: Record) returns (row: Row)
    requires r in stored
    ensures row in ImageRows(stored, cursor) && row.kind == ImageKind && row.id == ID_IMAGE_BASE + r.ordinal
    decreases |stored|
  {
    var first := stored[0];
    if r == first {
      var own := RowsOf(r, cursor);
      row := own[|own| - 1];
    } else {
      row := ImageShown(stored[1..], first.offset + first.length, r);
    }
  }

  predicate DistinctInKind(rows: seq<Row>) {
    forall i, j | 0 <= i < j < |rows| && rows[i].kind == rows[j].kind :: rows[i].id != rows[j].id
  }

  /** Two rows of one kind never share an id. */
  lemma {:induction false} KindsDistinct(stored: seq<Record>, cursor: nat)
    requires DistinctOrdinals(stored) && Positive(stored)
    ensures DistinctInKind(ImageRows(stored, cursor))
    decreases |stored|
  {
    hide RowsOf, ImageRows;
    if stored == [] {
      NoRows(cursor);
    } else {
      var r, rest := stored[0], stored[1..];
      var own, later := RowsOf(r, cursor), ImageRows(rest, r.offset + r.length);
      assert r in stored && forall b | b in rest :: b in stored;
      KindsDistinct(rest, r.offset + r.length);
      RowsAreFor(rest, r.offset + r.length);
      OwnRows(r, cursor);
      RowsSplit(stored, cursor);
      forall i, j | 0 <= i < |own| && 0 <= j < |later| && own[i].kind == later[j].kind
        ensures own[i].id != later[j].id
      {
        assert later[j] in later;
      }
    }
  }

  lemma {:induction false} OwnRows(r: Record, cursor: nat)
    requires r.length > 0
    ensures DistinctInKind(RowsOf(r, cursor))
    ensures forall i | 0 <= i < |RowsOf(r, cursor)| :: RowFor(RowsOf(r, cursor)[i], r)
  {
  }

  /** Image and padding ids meet exactly where a padded extent has an image a hundred ordinals after it. */
  lemma {:induction false} ImageRowIds(stored: seq<Record>, cursor: nat)
    requires DistinctOrdinals(stored) && Positive(stored)
    ensures Distinct(Ids(ImageRows(stored, cursor))) <==>
            forall r | r in stored && r.ordinal >= 100 :: !IsPadded(stored, cursor, r.ordinal - 100)
  {
    hide ImageRows, IsPadded;
    var rows := ImageRows(stored, cursor);
    KindsDistinct(stored, cursor);
    RowKinds(stored, cursor);
    if r :| r in stored && r.ordinal >= 100 && IsPadded(stored, cursor, r.ordinal - 100) {
      var padding := PaddingShown(stored, cursor, r.ordinal - 100);
      var image := ImageShown(stored, cursor, r);
      var i :| 0 <= i < |rows| && rows[i] == padding;
      var j :| 0 <= j < |rows| && rows[j] == image;
      assert Ids(rows)[i] == Ids(rows)[j] && i != j;
    } else {
      forall i, j | 0 <= i < |rows| && 0 <= j < |rows| && rows[i].kind == ImageKind && rows[j].kind != ImageKind
        ensures rows[i].id != rows[j].id
      {
        assert rows[i] in rows && rows[j] in rows;
        var r :| r in stored && rows[i].id == ID_IMAGE_BASE + r.ordinal;
      }
      forall i | 0 <= i < |rows|
        ensures rows[i].kind == ImageKind || rows[i].kind == PaddingKind
      {
        assert rows[i] in rows;
      }
    }
  }

  /** The fixed regions have ids of their own. */
  lemma {:induction false} FixedIds(records: seq<Record>, total: nat)
    ensures Distinct(Ids(Rows(records, total))) <==>
            Distinct(Ids(ImageRows(SortByOffset(Stored(records)), IndexEnd(|records|))))
  {
    hide SortByOffset, Stored, ImageRows;
    var indexEnd := IndexEnd(|records|);
    var stored := SortByOffset(Stored(records));
    var middle := ImageRows(stored, indexEnd);
    RowKinds(stored, indexEnd);
    var rows := Rows(records, total);
    var head, tail := HeadRows(indexEnd), TailRows(LastEnd(stored, indexEnd), total);
    forall x | x in Ids(middle)
      ensures x >= ID_IMAGE_BASE
    {
      var k :| 0 <= k < |middle| && middle[k].id == x;
      assert middle[k] in middle;
    }
    assert Ids(rows) == Ids(head) + Ids(middle) + Ids(tail);
    assert Ids(head) == [ID_HEADER, ID_CATALOG];
    assert Ids(tail) == if tail == [] then [] else [ID_FREE];
    if Distinct(Ids(middle)) {
      DistinctAppend(Ids(head), Ids(middle));
      DistinctAppend(Ids(head) + Ids(middle), Ids(tail));
    } else {
      assert forall k | 0 <= k < |middle| :: Ids(rows)[2 + k] == Ids(middle)[k];
    }
  }

  /** A program whose extent is padded: it starts after the end of the one before it. */
  predicate Padded(records: seq<Record>, ordinal: nat) {
    IsPadded(SortByOffset(Stored(records)), IndexEnd(|records|), ordinal)
  }

  /**
    * Ids are unique if and only if no padded program has a program with an image a hundred
    * ordinals after it.
    */
  lemma {:induction false} IdsUniqueExactly(records: seq<Record>, total: nat)
    requires Numbered(records, 0)
    requires forall a | a in records && a.hasImage :: a.length > 0
    ensures Distinct(Ids(Rows(records, total))) <==>
            forall i: nat | i + 100 < |records| && Padded(records, i) :: !records[i + 100].hasImage
  {
    hide SortByOffset, Stored, ImageRows, Rows, IsPadded;
    AddressOrder(records);
    var stored := SortByOffset(Stored(records));
    FixedIds(records, total);
    ImageRowIds(stored, IndexEnd(|records|));
    if i: nat :| i + 100 < |records| && Padded(records, i) && records[i + 100].hasImage {
      assert records[i + 100] in stored && records[i + 100].ordinal == i + 100;
    } else {
      forall r | r in stored && r.ordinal >= 100
        ensures !IsPadded(stored, IndexEnd(|records|), r.ordinal - 100)
      {
        var k :| 0 <= k < |records| && records[k] == r;
        var i: nat := k - 100;
        assert records[i + 100] == r;
        assert Padded(records, i) == IsPadded(stored, IndexEnd(|records|), i);
      }
    }
  }

  /** So they are while every program with an image is among the first hundred. */
  lemma {:induction false} IdsUnique(records: seq<Record>, total: nat)
    requires Numbered(records, 0)
    requires forall a | a in records && a.hasImage :: a.length > 0 && a.ordinal < 100
    ensures Distinct(Ids(Rows(records, total)))
  {
    hide Rows, Padded;
    IdsUniqueExactly(records, total);
    forall i: nat | i + 100 < |records| && Padded(records, i)
      ensures !records[i + 100].hasImage
    {
      assert records[i + 100] in records;
    }
  }

  lemma {:induction false} LowestIsFirst(s: seq<Record>, a: Record)
    requires Sorted(s) && a in s && forall b | b in s :: b == a || a.offset < b.offset
    ensures s[0] == a
  {
    assert s[0] in s && s == [s[0]] + s[1..];
  }

  /** Every edge joins two regions, and the targets are exactly the programs with an image. */
  lemma {:induction false} EdgesJoinRegions(records: seq<Record>, total: nat)
    requires Numbered(records, 0)
    ensures var rows := Rows(records, total);
            && |rows| >= 2 && rows[1].id == ID_CATALOG
            && (forall id | id in ImageIds(rows) ::
                  exists j :: 0 <= j < |rows| && rows[j].id == id && rows[j].kind == ImageKind)
            && (forall id :: id in ImageIds(rows) <==>
                             exists r :: r in records && r.hasImage && id == ID_IMAGE_BASE + r.ordinal)
            && Distinct(ImageIds(rows))
  {
    hide SortByOffset, Stored, ImageIds, Rows, TargetIds;
    AddressOrder(records);
    EdgeTargets(records, total);
    var rows := Rows(records, total);
    TargetsOf(SortByOffset(Stored(records)));
    forall id | id in ImageIds(rows)
      ensures exists j :: 0 <= j < |rows| && rows[j].id == id && rows[j].kind == ImageKind
    {
      IdsComeFromRows(rows, id);
    }
  }

  lemma {:induction false} EdgeTargets(records: seq<Record>, total: nat)
    ensures |Rows(records, total)| >= 2 && Rows(records, total)[1].id == ID_CATALOG
    ensures ImageIds(Rows(records, total)) == TargetIds(SortByOffset(Stored(records)))
  {
    hide SortByOffset, Stored, ImageRows, ImageIds;
    var indexEnd := IndexEnd(|records|);
    var stored := SortByOffset(Stored(records));
    ImageIdsAre(stored, indexEnd);
    EdgeIds(HeadRows(indexEnd), ImageRows(stored, indexEnd), TailRows(LastEnd(stored, indexEnd), total));
  }

  lemma {:induction false} TargetsOf(stored: seq<Record>)
    requires DistinctOrdinals(stored)
    ensures forall id :: id in TargetIds(stored) <==> exists r :: r in stored && id == ID_IMAGE_BASE + r.ordinal
    ensures Distinct(TargetIds(stored))
    decreases |stored|
  {
    if stored != [] {
      var r, rest := stored[0], stored[1..];
      TargetsOf(rest);
      assert forall b :: b in stored <==> b == r || b in rest;
      DistinctAppend([ID_IMAGE_BASE + r.ordinal], TargetIds(rest));
    }
  }

  lemma {:induction false} IdsComeFromRows(rows: seq<Row>, id: nat)
    requires id in ImageIds(rows)
    ensures exists j :: 0 <= j < |rows| && rows[j].id == id && rows[j].kind == ImageKind
    decreases |rows|
  {
    if !(rows[0].kind == ImageKind && rows[0].id == id) {
      IdsComeFromRows(rows[1..], id);
      var j :| 0 <= j < |rows[1..]| && rows[1..][j].id == id && rows[1..][j].kind == ImageKind;
      assert rows[j + 1].id == id;
    }
  }

  /** Only image rows contribute edges. */
  lemma {:induction false} EdgeIds(head: seq<Row>, middle: seq<Row>, tail: seq<Row>)
    requires forall row | row in head || row in tail :: row.kind != ImageKind
    ensures ImageIds(head + middle + tail) == ImageIds(middle)
  {
    NoIds(head);
    NoIds(tail);
    IdsAppend(head, middle);
    IdsAppend(head + middle, tail);
  }

  lemma {:induction false} NoIds(rows: seq<Row>)
    requires forall row | row in rows :: row.kind != ImageKind
    ensures ImageIds(rows) == []
    decreases |rows|
  {
    if rows != [] { NoIds(rows[1..]); }
  }

  lemma {:induction false} IdsAppend(a: seq<Row>, b: seq<Row>)
    ensures ImageIds(a + b) == ImageIds(a) + ImageIds(b)
    decreases |a|
  {
    if a == [] {
      assert a + b == b;
    } else {
      assert (a + b)[1..] == a[1..] + b;
      IdsAppend(a[1..], b);
      var first := if a[0].kind == ImageKind then [a[0].id] else [];
      assert first + (ImageIds(a[1..]) + ImageIds(b)) == first + ImageIds(a[1..]) + ImageIds(b);
    }
  }

  /** Every row has bytes, except the catalog of a store without programs. */
  lemma {:induction false} RowsHaveBytes(records: seq<Record>, total: nat)
    requires Numbered(records, 0)
    requires forall a | a in records && a.hasImage :: a.length > 0
    ensures (forall row | row in Rows(records, total) :: row.length > 0) <==> |records| > 0
  {
    hide SortByOffset, Stored, ImageRows;
    AddressOrder(records);
    var stored := SortByOffset(Stored(records));
    RowsAreFor(stored, IndexEnd(|records|));
    assert Rows(records, total)[1] in Rows(records, total);
  }

  ghost predicate ExtentsApart(records: seq<Record>) {
    forall a, b | a in records && b in records && a.hasImage && b.hasImage && a.ordinal != b.ordinal :: Apart(a, b)
  }

  /** A validated store is laid out without gap or overlap exactly when its extents are disjoint. */
  lemma {:induction false} ValidStoreTiles(crc: Crc, data: seq<byte>, records: seq<Record>, total: nat)
    requires ValidStore(crc, data) && |records| == data[0] as int && IndexEnd(data[0]) <= |data|
    requires forall i | 0 <= i < |records| :: records[i] == RecordFrom(data, i)
    ensures Tiles(Rows(records, total), 0, LayoutEnd(records, total)) <==> ExtentsApart(records)
  {
    hide Rows, LayoutEnd, NameOf, OffsetIn, LengthIn, ValidateImage, Tiles, ExtentValid, HeaderValid;
    forall i | 0 <= i < |records|
      ensures records[i].hasImage ==> records[i].length > 0 && IndexEnd(|records|) <= records[i].offset
    {
      assert RecordValid(crc, data, |records|, i);
      ExtentBounds(crc, data, IndexEnd(|records|), records[i].offset, records[i].length);
    }
    RowsTile(records, total);
  }

  /** The records read from a built store are those of its entries. */
  lemma {:induction false} BuiltRecordsRead(crc: Crc, entries: seq<Entry>, alignment: nat, data: seq<byte>, i: nat)
    requires alignment > 0 && alignment % BLOCK == 0 && WellNamed(entries) && Loaded(entries) && i < |entries|
    requires Encodable(crc, entries, alignment) && Store(crc, entries, alignment) == Some(data)
    requires IndexEnd(|entries|) <= |data|
    ensures RecordFrom(data, i) == Record(i, entries[i].name, OffsetOf(crc, entries, alignment, i),
                                          |ImageOf(crc, entries[i])|, entries[i].image.Some?)
  {
    hide RecordBytes, Store, Cursor, ImageOf, HeaderValid, NameOf, OffsetIn, LengthIn, RecordAt, Names, Loaded;
    var x := Extents(crc, entries, alignment)[i];
    assert Fits(x);
    hide Encodable;
    BuiltIndex(crc, entries, alignment, data);
    EntryImage(crc, entries, i);
    RecordReads(entries[i].name, i, x);
  }

  /** The ids, spelled out: header 1, catalog 2, free space 3, image 100 and padding 200 plus the ordinal. */
  lemma {:induction false} RegionIds(r: Record, cursor: nat, indexEnd: nat, end: nat, total: nat)
    requires indexEnd >= 8
    ensures HeadRows(indexEnd)[0] == Row(1, HeaderKind, None, 0, 8)
    ensures HeadRows(indexEnd)[1] == Row(2, CatalogKind, None, 8, indexEnd - 8) && |HeadRows(indexEnd)| == 2
    ensures TailRows(end, total) == if end < total then [Row(3, FreeKind, None, end, total - end)] else []
    ensures RowsOf(r, cursor) ==
            (if cursor < r.offset
             then [Row(200 + r.ordinal, PaddingKind, Some(r.name), cursor, r.offset - cursor)] else [])
            + [Row(100 + r.ordinal, ImageKind, Some(r.name), r.offset, r.length)]
  {
  }

  // ----- A valid store whose extents overlap -----

  /** Two programs `a` and `b` whose records name the same extent. */
  function SharedStore(crc: Crc, image: seq<byte>): seq<byte>
    requires Fits(Extent(IndexEnd(2), image))
  {
    var x := Extent(IndexEnd(2), image);
    var records := Records([[97], [98]], [x, x]);
    Appended(CatalogHeader(crc, 2, records) + records, x)
  }

  /** The header and the records of the shared store. */
  lemma {:induction false} SharedIndex(crc: Crc, image: seq<byte>)
    requires Fits(Extent(IndexEnd(2), image)) && image != []
    ensures var data, x := SharedStore(crc, image), Extent(IndexEnd(2), image);
            && HeaderValid(crc, data) && data[0] == 2 && IndexEnd(2) + |image| <= |data|
            && data[IndexEnd(2)..IndexEnd(2) + |image|] == image
            && RecordAt(data, 0) == RecordBytes([97], 0, x) && RecordAt(data, 1) == RecordBytes([98], 1, x)
  {
    hide ReadWord, RecordBytes, Word, Appended;
    var names, x := [[97], [98]], Extent(IndexEnd(2), image);
    var records := Records(names, [x, x]);
    var header := CatalogHeader(crc, 2, records);
    var index, data := header + records, SharedStore(crc, image);
    assert index <= data;
    assert header[5..8] == Word(crc(records)) && header[2..5] == SWT;
    assert data[5..8] == header[5..8] && data[2..5] == header[2..5];
    WordReads(data, 5, crc(records));
    assert data[HEADER..IndexEnd(2)] == records;
    RecordsAt(names, [x, x], 0);
    RecordsAt(names, [x, x], 1);
    assert RecordAt(data, 0) == records[0..RECORD] && RecordAt(data, 1) == records[RECORD..RECORD + RECORD];
  }

  /** The validator accepts it, and its regions do not tile. */
  lemma {:induction false} OverlapIsAccepted(crc: Crc, m: Manifest, records: seq<Record>, total: nat)
    requires Acceptable(m) && Fits(Extent(IndexEnd(2), BuildImage(crc, m).value))
    requires var data := SharedStore(crc, BuildImage(crc, m).value);
             |data| >= IndexEnd(2) && records == [RecordFrom(data, 0), RecordFrom(data, 1)]
    ensures ValidStore(crc, SharedStore(crc, BuildImage(crc, m).value))
    ensures !ExtentsApart(records) && !Tiles(Rows(records, total), 0, LayoutEnd(records, total))
  {
    hide ReadWord, RecordBytes, UpToNul, NameOf, OffsetIn, LengthIn, BuildImage, ValidateImage, HeaderValid,
         SharedStore, Rows, LayoutEnd, Tiles;
    BuiltIsAccepted(crc, m);
    var image := BuildImage(crc, m).value;
    var data, x := SharedStore(crc, image), Extent(IndexEnd(2), image);
    SharedIndex(crc, image);
    RecordReads([97], 0, x);
    RecordReads([98], 1, x);
    assert records[0] in records && records[1] in records;
    ValidStoreTiles(crc, data, records, total);
  }

  /** One word of text and nothing else. */
  const SMALLEST: Manifest := Manifest(1, 1, 0, 0, 0, 0, [0, 0, 0])

  /** There are such stores. */
  lemma {:induction false} SmallestIsShared(crc: Crc)
    ensures Acceptable(SMALLEST) && Fits(Extent(IndexEnd(2), BuildImage(crc, SMALLEST).value))
    ensures |SharedStore(crc, BuildImage(crc, SMALLEST).value)| >= IndexEnd(2)
  {
    BuiltIsAccepted(crc, SMALLEST);
  }

  /** The store the builder makes is laid out without gap or overlap. */
  lemma {:induction false} BuiltStoreTiles(crc: Crc, entries: seq<Entry>, alignment: nat, data: seq<byte>,
                                           records: seq<Record>, total: nat)
    requires alignment > 0 && alignment % BLOCK == 0 && WellNamed(entries) && Loaded(entries)
    requires Encodable(crc, entries, alignment) && Store(crc, entries, alignment) == Some(data)
    requires |records| == |entries| && IndexEnd(|entries|) <= |data|
    requires forall i | 0 <= i < |records| :: records[i] == RecordFrom(data, i)
    ensures Tiles(Rows(records, total), 0, LayoutEnd(records, total))
  {
    hide Rows, LayoutEnd, NameOf, OffsetIn, LengthIn, Store, ValidateImage, Tiles, Encodable, ExtentValid;
    BuiltStoreServes(crc, entries, alignment, data);
    forall a, b | a in records && b in records && a.hasImage && b.hasImage && a.ordinal != b.ordinal
      ensures Apart(a, b)
    {
      assert records[a.ordinal] == a && records[b.ordinal] == b;
      assert RecordValid(crc, data, |entries|, a.ordinal) && RecordValid(crc, data, |entries|, b.ordinal);
      assert entries[a.ordinal].image.Some? && entries[b.ordinal].image.Some?;
    }
    ValidStoreTiles(crc, data, records, total);
  }

  // ----- A built store whose ids collide -----

  /**
    * If the first image is padded and the program a hundred ordinals on has one too, two regions of
    * a built store have id 200.
    */
  lemma {:induction false} BuiltIdsCollide(crc: Crc, entries: seq<Entry>, alignment: nat, data: seq<byte>,
                                           records: seq<Record>, total: nat)
    requires alignment > 0 && alignment % BLOCK == 0 && WellNamed(entries) && Loaded(entries)
    requires Encodable(crc, entries, alignment) && Store(crc, entries, alignment) == Some(data)
    requires |records| == |entries| > 100 && IndexEnd(|entries|) <= |data|
    requires forall i | 0 <= i < |records| :: records[i] == RecordFrom(data, i)
    requires entries[0].image.Some? && entries[100].image.Some? && IndexEnd(|entries|) % alignment != 0
    ensures ValidStore(crc, data) && !Distinct(Ids(Rows(records, total)))
  {
    hide Rows, NameOf, OffsetIn, LengthIn, Store, ValidateImage, Encodable, ExtentValid, Padded, HeaderValid,
         Extents, WellNamed, Loaded;
    BuiltStoreServes(crc, entries, alignment, data);
    forall i | 0 <= i < |records|
      ensures records[i].hasImage == entries[i].image.Some?
      ensures records[i].hasImage ==> records[i].length > 0
    {
      assert RecordValid(crc, data, |entries|, i);
      ExtentBounds(crc, data, IndexEnd(|entries|), records[i].offset, records[i].length);
    }
    FirstIsAligned(crc, entries, alignment, data);
    FirstIsPadded(records);
    IdsUniqueExactly(records, total);
    assert records[0 + 100].hasImage;
  }

  lemma {:induction false} FirstIsAligned(crc: Crc, entries: seq<Entry>, alignment: nat, data: seq<byte>)
    requires alignment > 0 && alignment % BLOCK == 0 && WellNamed(entries) && Loaded(entries)
    requires Encodable(crc, entries, alignment) && Store(crc, entries, alignment) == Some(data)
    requires entries != [] && entries[0].image.Some? && IndexEnd(|entries|) % alignment != 0
    requires IndexEnd(|entries|) <= |data|
    ensures IndexEnd(|entries|) < OffsetIn(RecordAt(data, 0))
  {
    hide NameOf, OffsetIn, LengthIn, Store, Encodable, RecordValid, RecordBytes, Serves, HeaderValid, Loaded;
    BuiltIndex(crc, entries, alignment, data);
    BuiltRecord(crc, entries, alignment, data, 0);
    AlignIsLeast(IndexEnd(|entries|), alignment);
    hide Align;
    assert Extents(crc, entries, alignment)[0].offset == Cursor(crc, entries, alignment, 0);
  }

  lemma {:induction false} FirstIsPadded(records: seq<Record>)
    requires records != [] && Numbered(records, 0) && records[0].hasImage && IndexEnd(|records|) < records[0].offset
    requires forall i, j | 0 <= i < j < |records| && records[i].hasImage && records[j].hasImage ::
               records[i].offset + records[i].length <= records[j].offset
    requires records[0].length > 0
    ensures Padded(records, 0)
  {
    hide SortByOffset, Stored;
    AddressOrder(records);
    var stored := SortByOffset(Stored(records));
    assert records[0] in records;
    LowestIsFirst(stored, records[0]);
  }

  /** A hundred and one programs of which the first and the last have an image. */
  function Crowd(): (s: seq<Entry>)
    ensures |s| == 101
  {
    seq(101, i requires 0 <= i < 101 =>
      Entry([97 + i / 10, 97 + i % 10], if i == 0 || i == 100 then Some(SMALLEST) else None))
  }

  lemma {:induction false} CrowdIsLoaded(crc: Crc)
    ensures WellNamed(Crowd()) && Loaded(Crowd())
    ensures forall i | 0 <= i < 101 :: |ImageOf(crc, Crowd()[i])| == if i == 0 || i == 100 then 30 else 0
  {
    BuiltIsAccepted(crc, SMALLEST);
    hide BuildImage;
    var entries := Crowd();
    forall i, j | 0 <= i < j < 101
      ensures entries[i].name != entries[j].name
    {
      assert i / 10 != j / 10 || i % 10 != j % 10;
      assert entries[i].name[0] != entries[j].name[0] || entries[i].name[1] != entries[j].name[1];
    }
  }

  lemma {:induction false} CrowdCursor(crc: Crc, i: nat)
    requires i <= 100
    ensures Cursor(crc, Crowd(), 4096, i) <= if i == 0 then 6528 else 10664
  {
    hide Align, ImageOf;
    CrowdIsLoaded(crc);
    CursorStep(crc, Crowd(), 4096, if i == 0 then 0 else i - 1);
    if i == 0 {
      AlignIsLeast(IndexEnd(101), 4096);
    } else {
      CrowdCursor(crc, i - 1);
      AlignIsLeast(30, BLOCK);
      AlignIsLeast(Cursor(crc, Crowd(), 4096, i - 1) + Align(30, BLOCK), 4096);
    }
  }

  lemma {:induction false} StoreSucceeds(crc: Crc, entries: seq<Entry>, alignment: nat)
    requires alignment > 0 && alignment % BLOCK == 0 && WellNamed(entries) && Loaded(entries)
    requires Encodable(crc, entries, alignment)
    ensures Store(crc, entries, alignment).Some? && IndexEnd(|entries|) <= |Store(crc, entries, alignment).value|
  {
    hide RecordBytes, Fill, Cursor, WellPlaced, EndsBy, ExtentOf, Records;
    var extents := Extents(crc, entries, alignment);
    var records := Records(Names(entries), extents);
    ExtentsWellPlaced(crc, entries, alignment);
    FillSucceeds(CatalogHeader(crc, |entries|, records) + records, extents, Cursor(crc, entries, alignment, |entries|));
  }

  /** Stored with images aligned to 4096 bytes, these have colliding ids. */
  lemma {:induction false} IdsCollide(crc: Crc, total: nat)
    ensures WellNamed(Crowd()) && Loaded(Crowd()) && Encodable(crc, Crowd(), 4096)
    ensures var store := Store(crc, Crowd(), 4096);
            && store.Some? && IndexEnd(101) <= |store.value| && ValidStore(crc, store.value)
            && forall records: seq<Record> |
                 |records| == 101 && (forall i | 0 <= i < 101 :: records[i] == RecordFrom(store.value, i)) ::
                 !Distinct(Ids(Rows(records, total)))
  {
    hide Rows, Store, ValidStore, RecordFrom, WellNamed, Loaded, ImageOf;
    CrowdIsLoaded(crc);
    forall i | 0 <= i < 101
      ensures Fits(Extents(crc, Crowd(), 4096)[i])
    {
      CrowdCursor(crc, i);
    }
    StoreSucceeds(crc, Crowd(), 4096);
    var data := Store(crc, Crowd(), 4096).value;
    var made := seq(101, i requires 0 <= i < 101 => RecordFrom(data, i));
    BuiltIdsCollide(crc, Crowd(), 4096, data, made, total);
    forall records: seq<Record> |
      |records| == 101 && (forall i | 0 <= i < 101 :: records[i] == RecordFrom(data, i))
      ensures !Distinct(Ids(Rows(records, total)))
    {
      assert records == made;
    }
  }

  lemma {:induction false} ExtentBounds(crc: Crc, data: seq<byte>, indexEnd: nat, offset: nat, length: nat)
    ensures ExtentValid(crc, data, indexEnd, offset, length) ==> indexEnd <= offset && length > 0
  {
  }
}
