/**
  * The bytes of a FAT32 image (scripts/mkfat32.py): boot sector, FSInfo, both FATs and the data
  * area, directory entries, and a reader that starts from nothing but those bytes.
  */
module Fat32Image {
  import opened Bytes
  import opened Fat32Geometry
  import opened Fat32Volume

  // ----- Little-endian numbers -----

  function Low(value: nat, at: nat): byte
    requires at < 4
  {
    if at == 0 then value % 256
    else if at == 1 then value / 256 % 256
    else if at == 2 then value / 65536 % 256
    else value / 16777216 % 256
  }

  function U32(s: seq<byte>, at: nat): nat
    requires at + 4 <= |s|
  {
    s[at] + 256 * s[at + 1] as int + 65536 * s[at + 2] as int + 16777216 * s[at + 3] as int
  }

  lemma {:induction false} Digits(value: nat)
    requires value < 0x1_0000_0000
    ensures value == Low(value, 0) + 256 * Low(value, 1) as int + 65536 * Low(value, 2) as int
                     + 16777216 * Low(value, 3) as int
  {
    assert value / 256 / 256 == value / 65536 && value / 65536 / 256 == value / 16777216;
    assert value / 16777216 < 256;
  }

  /** The four bytes of `value` stand at `at`. */
  predicate FieldAt(s: seq<byte>, at: nat, value: nat) {
    && at + 4 <= |s|
    && s[at] == Low(value, 0) && s[at + 1] == Low(value, 1)
    && s[at + 2] == Low(value, 2) && s[at + 3] == Low(value, 3)
  }

  lemma {:induction false} FieldReads(s: seq<byte>, at: nat, value: nat)
    requires FieldAt(s, at, value) && value < 0x1_0000_0000
    ensures U32(s, at) == value
  {
    Digits(value);
  }

  // ----- Boot sector and FSInfo, byte by byte -----

  type ShortName = s: seq<byte> | |s| == 11 witness seq(11, _ => 0x20)

  datatype Header = Header(
    sectors: nat, perCluster: nat, fatSectors: nat, root: nat, volumeLabel: ShortName, freeClusters: nat, nextFree: nat)

  /** Every field fits the width it is packed into. */
  predicate Packable(h: Header) {
    h.sectors < 0x1_0000_0000 && h.perCluster < 256 && h.fatSectors < 0x1_0000_0000 &&
    h.root < 0x1_0000_0000 && h.freeClusters < 0x1_0000_0000 && h.nextFree < 0x1_0000_0000
  }

  const JUMP_AND_NAME: seq<byte> := [0xeb, 0x58, 0x90, 0x53, 0x57, 0x54, 0x4f, 0x53, 0x31, 0x2e, 0x30]
  const FAT32_NAME: seq<byte> := [0x46, 0x41, 0x54, 0x33, 0x32, 0x20, 0x20, 0x20]

  /** Jump, system name, and the fields up to the hidden sectors. */
  function HeadByte(h: Header, i: nat): byte
    requires Packable(h)
  {
    if i < 11 then JUMP_AND_NAME[i]
    else if i < 13 then Low(SECTOR, i - 11)
    else if i == 13 then h.perCluster
    else if i < 16 then Low(RESERVED, i - 14)
    else if i == 16 then 2
    else if i == 21 then 0xf8
    else if i == 24 then 63
    else if i == 26 then 255
    else 0
  }

  /** Total sectors, sectors of one FAT, root cluster, and where FSInfo and the backup are. */
  function SizeByte(h: Header, i: nat): byte {
    if 32 <= i < 36 then Low(h.sectors, i - 32)
    else if 36 <= i < 40 then Low(h.fatSectors, i - 36)
    else if 44 <= i < 48 then Low(h.root, i - 44)
    else if i == 48 then 1
    else if i == 50 then 6
    else 0
  }

  /** Drive, signature, serial number, label, the name of the format, and the signature of the sector. */
  function TailByte(h: Header, i: nat): byte {
    if i == 64 then 0x80
    else if i == 66 then 0x29
    else if 67 <= i < 71 then Low(0x5357_5444, i - 67)
    else if 71 <= i < 82 then h.volumeLabel[i - 71]
    else if 82 <= i < 90 then FAT32_NAME[i - 82]
    else if i == 510 then 0x55
    else if i == 511 then 0xaa
    else 0
  }

  function BootSector(h: Header): (s: seq<byte>)
    requires Packable(h)
    ensures |s| == 512
  {
    seq(512, i requires 0 <= i < 512 =>
      if i < 32 then HeadByte(h, i) else if i < 64 then SizeByte(h, i) else TailByte(h, i))
  }

  /** Three signatures, and between them how many clusters are free and which is next. */
  function FsinfoByte(h: Header, i: nat): byte {
    if i < 4 then Low(0x4161_5252, i)
    else if 484 <= i < 488 then Low(0x6141_7272, i - 484)
    else if 488 <= i < 492 then Low(h.freeClusters, i - 488)
    else if 492 <= i < 496 then Low(h.nextFree, i - 492)
    else if i == 510 then 0x55
    else if i == 511 then 0xaa
    else 0
  }

  function FsinfoSector(h: Header): (s: seq<byte>)
    ensures |s| == 512
  {
    seq(512, i requires 0 <= i < 512 => FsinfoByte(h, i))
  }

  /** The reserved sectors, with the backup of both leading sectors at sector six. */
  function ReservedBytes(h: Header): (s: seq<byte>)
    requires Packable(h)
    ensures |s| == RESERVED * SECTOR
  {
    BootSector(h) + FsinfoSector(h) + Zeros(4 * SECTOR) + BootSector(h) + FsinfoSector(h) + Zeros(24 * SECTOR)
  }

  /** One FAT: four bytes an entry, zeros to the end of its sectors. */
  function TableBytes(fat: seq<nat>, fatSectors: nat): (s: seq<byte>)
    ensures |s| == fatSectors * SECTOR
  {
    seq(fatSectors * SECTOR, i requires i >= 0 => if i / 4 < |fat| then Low(fat[i / 4], i % 4) else 0)
  }

  function ImageBytes(h: Header, fat: seq<nat>, data: seq<byte>): seq<byte>
    requires Packable(h)
  {
    ReservedBytes(h) + TableBytes(fat, h.fatSectors) + TableBytes(fat, h.fatSectors) + data
  }

  // ----- The reader of an image -----

  /** What a host takes from the boot sector, FSInfo and the first FAT. */
  datatype Mounted = Mounted(
    per: nat, fat: seq<nat>, data: seq<byte>, root: nat, sectors: nat, freeClusters: nat, nextFree: nat)

  /** Entries of a FAT that begins at byte `at`; the top four bits of each are not part of it. */
  function ReadTable(image: seq<byte>, at: nat, entries: nat): seq<nat>
    requires at + 4 * entries <= |image|
  {
    seq(entries, i requires 0 <= i < entries => U32(image, at + 4 * i) % 0x1000_0000)
  }

  /** A boot sector of a FAT32 volume: the fields of the older kinds are zero. */
  predicate IsBootSector(b: seq<byte>) {
    && |b| >= 512 && b[0] == 0xeb && b[2] == 0x90 && U16(b[11], b[12]) == 512 && b[16] == 2
    && U16(b[17], b[18]) == 0 && U16(b[19], b[20]) == 0 && b[21] == 0xf8 && U16(b[22], b[23]) == 0
    && U16(b[40], b[41]) == 0 && U16(b[42], b[43]) == 0 && b[66] == 0x29
    && b[82..90] == [0x46, 0x41, 0x54, 0x33, 0x32, 0x20, 0x20, 0x20] && b[510] == 0x55 && b[511] == 0xaa
  }

  /** An FSInfo sector at byte `at`, by its three signatures. */
  predicate IsFsinfo(s: seq<byte>, at: nat) {
    && |s| >= at + 512 && U32(s, at) == 0x4161_5252 && U32(s, at + 484) == 0x6141_7272
    && U32(s, at + 508) == 0xaa55_0000
  }

  /** The sectors `from` and `to` hold the same bytes. */
  predicate SameSector(image: seq<byte>, from: nat, to: nat) {
    && from * 512 + 512 <= |image| && to * 512 + 512 <= |image|
    && image[from * 512..from * 512 + 512] == image[to * 512..to * 512 + 512]
  }

  /** FSInfo is where byte 48 says, and the backup of both sectors where byte 50 says. */
  predicate HasLeadingSectors(image: seq<byte>) {
    && IsBootSector(image)
    && var info, backup := U16(image[48], image[49]), U16(image[50], image[51]);
    && IsFsinfo(image, info * 512) && SameSector(image, 0, backup) && SameSector(image, info, backup + info)
  }

  function Mount(image: seq<byte>): Option<Mounted> {
    if !HasLeadingSectors(image) then None
    else MountAt(image, image[13] as int * 512, U16(image[14], image[15]), U32(image, 36),
                 U16(image[48], image[49]) * 512)
  }

  /** The rest of a volume: two FATs that agree, and the data area. */
  function MountAt(image: seq<byte>, per: nat, reserved: nat, fatSectors: nat, info: nat): Option<Mounted>
    requires |image| >= 512 && |image| >= info + 512
  {
    var first, size := reserved * 512, fatSectors * 512;
    if |image| < first + size + size || image[first..first + size] != image[first + size..first + size + size] then None
    else Some(Mounted(per, ReadTable(image, first, fatSectors * 128), image[first + size + size..],
                      U32(image, 44), U32(image, 32), U32(image, info + 488), U32(image, info + 492)))
  }

  lemma {:induction false} MountFinds(h: Header, fat: seq<nat>, data: seq<byte>)
    requires Packable(h) && |fat| <= h.fatSectors * 128
    requires forall v | v in fat :: v < 0x1000_0000
    ensures var m := Mount(ImageBytes(h, fat, data));
            && m.Some? && m.value.per == h.perCluster * 512 && m.value.root == h.root
            && m.value.data == data && m.value.sectors == h.sectors
            && m.value.freeClusters == h.freeClusters && m.value.nextFree == h.nextFree
            && |m.value.fat| == h.fatSectors * 128
            && fat == m.value.fat[..|fat|]
    ensures |ImageBytes(h, fat, data)| == (32 + 2 * h.fatSectors) * 512 + |data|
  {
    var image := ImageBytes(h, fat, data);
    var reserved, table := ReservedBytes(h), TableBytes(fat, h.fatSectors);
    ImageParts(reserved, table, data);
    TableReads(h, fat, data);
    hide U32, ReservedBytes, TableBytes, HasLeadingSectors, MountAt, ReadTable, U16;
    HeaderFields(h, image);
    MountsAt(image, h.perCluster * 512, h.fatSectors, reserved, table, data);
  }

  lemma {:induction false} MountsAt(image: seq<byte>, per: nat, fatSectors: nat, reserved: seq<byte>, table: seq<byte>,
                                    data: seq<byte>)
    requires image == reserved + table + table + data
    requires |reserved| == 32 * 512 && |table| == fatSectors * 512
    ensures MountAt(image, per, 32, fatSectors, 512) ==
            Some(Mounted(per, ReadTable(image, 32 * 512, fatSectors * 128), data, U32(image, 44), U32(image, 32),
                         U32(image, 512 + 488), U32(image, 512 + 492)))
  {
    hide U32, ReadTable;
    ImageParts(reserved, table, data);
  }

  lemma {:induction false} ImageParts(reserved: seq<byte>, table: seq<byte>, data: seq<byte>)
    ensures var image := reserved + table + table + data;
            var a, b := |reserved| + |table|, |reserved| + 2 * |table|;
            && image[..|reserved|] == reserved && image[|reserved|..a] == table
            && image[a..b] == table && image[b..] == data
  {
  }

  lemma {:induction false} HeaderFields(h: Header, image: seq<byte>)
    requires Packable(h) && |image| >= RESERVED * SECTOR && image[..RESERVED * SECTOR] == ReservedBytes(h)
    ensures HasLeadingSectors(image) && U16(image[48], image[49]) == 1
    ensures image[13] == h.perCluster && U16(image[14], image[15]) == 32
    ensures U32(image, 32) == h.sectors && U32(image, 36) == h.fatSectors && U32(image, 44) == h.root
    ensures U32(image, 512 + 488) == h.freeClusters && U32(image, 512 + 492) == h.nextFree
  {
    LeadingSectors(h, image);
    hide BootSector, FsinfoSector, ReservedBytes, U32, IsBootSector;
    BootNumbers(h, image);
    FsinfoNumbers(h, image);
  }

  /** Both leading sectors stand at the beginning and again at sector six. */
  lemma {:induction false} LeadingSectors(h: Header, image: seq<byte>)
    requires Packable(h) && |image| >= RESERVED * SECTOR && image[..RESERVED * SECTOR] == ReservedBytes(h)
    ensures image[0..512] == image[6 * 512..6 * 512 + 512] == BootSector(h)
    ensures image[512..1024] == image[7 * 512..7 * 512 + 512] == FsinfoSector(h)
  {
    hide BootSector, FsinfoSector;
    var b, f := BootSector(h), FsinfoSector(h);
    var s := ReservedBytes(h);
    assert s[0..512] == b && s[512..1024] == f && s[3072..3584] == b && s[3584..4096] == f;
    SliceOfSlice(image, 0, RESERVED * SECTOR, 0, 512);
    SliceOfSlice(image, 0, RESERVED * SECTOR, 512, 1024);
    SliceOfSlice(image, 0, RESERVED * SECTOR, 3072, 3584);
    SliceOfSlice(image, 0, RESERVED * SECTOR, 3584, 4096);
    assert image[0..RESERVED * SECTOR] == s;
  }

  /** Every field of the boot sector, read as a host reads it. */
  lemma {:induction false} BootNumbers(h: Header, b: seq<byte>)
    requires Packable(h) && |b| >= 512 && b[0..512] == BootSector(h)
    ensures IsBootSector(b)
    ensures b[13] == h.perCluster && U16(b[14], b[15]) == 32
    ensures U32(b, 32) == h.sectors && U32(b, 36) == h.fatSectors && U32(b, 44) == h.root
    ensures U16(b[48], b[49]) == 1 && U16(b[50], b[51]) == 6
    ensures b[3..11] == [0x53, 0x57, 0x54, 0x4f, 0x53, 0x31, 0x2e, 0x30] && b[71..82] == h.volumeLabel
    ensures U16(b[24], b[25]) == 63 && U16(b[26], b[27]) == 255 && U32(b, 28) == 0
    ensures b[64] == 0x80 && U32(b, 67) == 0x5357_5444
  {
    assert forall i | 0 <= i < 512 :: b[i] == b[0..512][i];
    hide HeadByte, SizeByte, TailByte;
    HeadFields(h, b);
    SizeFields(h, b);
    TailFields(h, b);
  }

  lemma {:induction false} HeadFields(h: Header, b: seq<byte>)
    requires Packable(h) && |b| >= 512 && forall i | 0 <= i < 32 :: b[i] == HeadByte(h, i)
    ensures b[0] == 0xeb && b[1] == 0x58 && b[2] == 0x90
    ensures b[3..11] == [0x53, 0x57, 0x54, 0x4f, 0x53, 0x31, 0x2e, 0x30]
    ensures U16(b[11], b[12]) == 512 && b[13] == h.perCluster && U16(b[14], b[15]) == 32 && b[16] == 2
    ensures U16(b[17], b[18]) == 0 && U16(b[19], b[20]) == 0 && b[21] == 0xf8 && U16(b[22], b[23]) == 0
    ensures U16(b[24], b[25]) == 63 && U16(b[26], b[27]) == 255 && U32(b, 28) == 0
  {
    HeadBytes(h);
    JumpBytes(h, b);
    hide HeadByte;
  }

  lemma {:induction false} JumpBytes(h: Header, b: seq<byte>)
    requires Packable(h) && |b| >= 512 && forall i | 0 <= i < 32 :: b[i] == HeadByte(h, i)
    ensures b[0] == 0xeb && b[1] == 0x58 && b[2] == 0x90
    ensures b[3..11] == [0x53, 0x57, 0x54, 0x4f, 0x53, 0x31, 0x2e, 0x30]
  {
    assert forall i | 0 <= i < 11 :: HeadByte(h, i) == JUMP_AND_NAME[i];
    hide HeadByte;
    assert b[3..11] == JUMP_AND_NAME[3..11];
  }

  lemma {:induction false} HeadBytes(h: Header)
    requires Packable(h)
    ensures HeadByte(h, 11) == 0 && HeadByte(h, 12) == 2 && HeadByte(h, 13) == h.perCluster
    ensures HeadByte(h, 14) == 32 && HeadByte(h, 15) == 0 && HeadByte(h, 16) == 2
    ensures HeadByte(h, 17) == 0 && HeadByte(h, 18) == 0 && HeadByte(h, 19) == 0 && HeadByte(h, 20) == 0
    ensures HeadByte(h, 21) == 0xf8 && HeadByte(h, 22) == 0 && HeadByte(h, 23) == 0
    ensures HeadByte(h, 24) == 63 && HeadByte(h, 25) == 0 && HeadByte(h, 26) == 255 && HeadByte(h, 27) == 0
    ensures HeadByte(h, 28) == 0 && HeadByte(h, 29) == 0 && HeadByte(h, 30) == 0 && HeadByte(h, 31) == 0
  {
    assert Low(512, 0) == 0 && Low(512, 1) == 2 && Low(32, 0) == 32 && Low(32, 1) == 0;
    hide Low;
  }

  lemma {:induction false} SizeFields(h: Header, b: seq<byte>)
    requires Packable(h) && |b| >= 512 && forall i | 32 <= i < 64 :: b[i] == SizeByte(h, i)
    ensures U32(b, 32) == h.sectors && U32(b, 36) == h.fatSectors && U32(b, 44) == h.root
    ensures U16(b[40], b[41]) == 0 && U16(b[42], b[43]) == 0 && U16(b[48], b[49]) == 1 && U16(b[50], b[51]) == 6
  {
    SizeNumbers(h, b);
    SizeBytes(h, b);
    hide SizeByte, U32, Packable, Low, U16;
  }

  lemma {:induction false} SizeNumbers(h: Header, b: seq<byte>)
    requires Packable(h) && |b| >= 512 && forall i | 32 <= i < 64 :: b[i] == SizeByte(h, i)
    ensures U32(b, 32) == h.sectors && U32(b, 36) == h.fatSectors && U32(b, 44) == h.root
  {
    hide Low, U32;
    assert FieldAt(b, 32, h.sectors) && FieldAt(b, 36, h.fatSectors) && FieldAt(b, 44, h.root);
    FieldReads(b, 32, h.sectors);
    FieldReads(b, 36, h.fatSectors);
    FieldReads(b, 44, h.root);
  }

  lemma {:induction false} SizeBytes(h: Header, b: seq<byte>)
    requires |b| >= 512 && forall i | 32 <= i < 64 :: b[i] == SizeByte(h, i)
    ensures U16(b[40], b[41]) == 0 && U16(b[42], b[43]) == 0 && U16(b[48], b[49]) == 1 && U16(b[50], b[51]) == 6
  {
    hide Low, U16;
    assert b[40] == 0 && b[41] == 0 && b[42] == 0 && b[43] == 0;
    assert b[48] == 1 && b[49] == 0 && b[50] == 6 && b[51] == 0;
    SmallWord(0);
    SmallWord(1);
    SmallWord(6);
  }

  lemma {:induction false} SmallWord(low: byte)
    ensures U16(low, 0) == low as int
  {
  }

  lemma {:induction false} TailFields(h: Header, b: seq<byte>)
    requires |b| >= 512 && forall i | 64 <= i < 512 :: b[i] == TailByte(h, i)
    ensures b[64] == 0x80 && b[66] == 0x29 && U32(b, 67) == 0x5357_5444 && b[510] == 0x55 && b[511] == 0xaa
    ensures b[71..82] == h.volumeLabel && b[82..90] == [0x46, 0x41, 0x54, 0x33, 0x32, 0x20, 0x20, 0x20]
  {
    hide Low;
    FieldReads(b, 67, 0x5357_5444);
    assert forall i | 0 <= i < 11 :: TailByte(h, 71 + i) == h.volumeLabel[i];
    assert forall i | 0 <= i < 8 :: TailByte(h, 82 + i) == FAT32_NAME[i];
    assert b[71..82] == h.volumeLabel;
    assert b[82..90] == FAT32_NAME;
  }

  lemma {:induction false} FsinfoNumbers(h: Header, image: seq<byte>)
    requires Packable(h) && |image| >= 1024 && image[512..1024] == FsinfoSector(h)
    ensures IsFsinfo(image, 512)
    ensures U32(image, 512 + 488) == h.freeClusters && U32(image, 512 + 492) == h.nextFree
  {
    var s := FsinfoSector(h);
    FsinfoFields(h, s);
    hide FsinfoSector, FsinfoByte, U32, Low;
    FieldReads(s, 0, 0x4161_5252);
    FieldReads(s, 484, 0x6141_7272);
    FieldReads(s, 488, h.freeClusters);
    FieldReads(s, 492, h.nextFree);
    Within(image, 512, 1024, 0);
    Within(image, 512, 1024, 484);
    Within(image, 512, 1024, 488);
    Within(image, 512, 1024, 492);
    Within(image, 512, 1024, 508);
  }

  lemma {:induction false} FsinfoFields(h: Header, s: seq<byte>)
    requires |s| == 512 && forall i | 0 <= i < 512 :: s[i] == FsinfoByte(h, i)
    ensures FieldAt(s, 0, 0x4161_5252) && FieldAt(s, 484, 0x6141_7272)
    ensures FieldAt(s, 488, h.freeClusters) && FieldAt(s, 492, h.nextFree)
    ensures U32(s, 508) == 0xaa55_0000
  {
    hide Low;
    assert s[508] == FsinfoByte(h, 508) && s[509] == FsinfoByte(h, 509);
    assert s[510] == FsinfoByte(h, 510) && s[511] == FsinfoByte(h, 511);
  }

  lemma {:induction false} Within(s: seq<byte>, from: nat, to: nat, k: nat)
    requires from <= to <= |s| && k + 4 <= to - from
    ensures U32(s, from + k) == U32(s[from..to], k)
  {
  }

  lemma {:induction false} TableReads(h: Header, fat: seq<nat>, data: seq<byte>)
    requires Packable(h) && |fat| <= h.fatSectors * 128
    requires forall v | v in fat :: v < 0x1000_0000
    ensures var image := ImageBytes(h, fat, data);
            ReadTable(image, RESERVED * SECTOR, h.fatSectors * 128)[..|fat|] == fat
  {
    hide ReservedBytes, U32, TableBytes, Low, Packable;
    var image := ImageBytes(h, fat, data);
    var start := RESERVED * SECTOR;
    var t := TableBytes(fat, h.fatSectors);
    ImageParts(ReservedBytes(h), t, data);
    assert image[start..start + |t|] == t;
    hide ImageBytes;
    var read := ReadTable(image, start, h.fatSectors * 128);
    forall i: nat | i < |fat|
      ensures read[i] == fat[i]
    {
      assert fat[i] in fat;
      TableEntry(fat, h.fatSectors, i);
      FieldReads(t, 4 * i, fat[i]);
      Within(image, start, start + |t|, 4 * i);
      assert fat[i] % 0x1000_0000 == fat[i];
    }
  }

  lemma {:induction false} TableEntry(fat: seq<nat>, fatSectors: nat, i: nat)
    requires i < |fat| <= fatSectors * 128
    ensures var t := TableBytes(fat, fatSectors);
            FieldAt(t, 4 * i, fat[i])
  {
    hide Low;
    assert 4 * i / 4 == i && (4 * i + 1) / 4 == i && (4 * i + 2) / 4 == i && (4 * i + 3) / 4 == i;
  }

  // ----- Directory entries -----

  const ATTR_FILE: byte := 0x20
  const ATTR_DIRECTORY: byte := 0x10
  const ATTR_VOLUME_ID: byte := 0x08
  const ENTRY: nat := 32

  /** One entry; the fixed dates are 0x0021. */
  function DirectoryEntry(name: ShortName, attr: byte, cluster: nat, size: nat): (e: seq<byte>)
    ensures |e| == ENTRY
  {
    name + [attr, 0, 0, 0, 0, 0x21, 0, 0x21, 0, Low(cluster, 2), Low(cluster, 3), 0, 0, 0x21, 0,
            Low(cluster, 0), Low(cluster, 1), Low(size, 0), Low(size, 1), Low(size, 2), Low(size, 3)]
  }

  function EntryName(e: seq<byte>): seq<byte>
    requires |e| == ENTRY
  {
    e[..11]
  }

  function EntryCluster(e: seq<byte>): nat
    requires |e| == ENTRY
  {
    U16(e[26], e[27]) + 65536 * U16(e[20], e[21])
  }

  function EntrySize(e: seq<byte>): nat
    requires |e| == ENTRY
  {
    U32(e, 28)
  }

  lemma {:induction false} EntryReads(name: ShortName, attr: byte, cluster: nat, size: nat)
    requires cluster < 0x1_0000_0000 && size < 0x1_0000_0000
    ensures var e := DirectoryEntry(name, attr, cluster, size);
            EntryName(e) == name && e[11] == attr && EntryCluster(e) == cluster && EntrySize(e) == size
  {
    Digits(cluster);
    hide Low, U32;
    var e := DirectoryEntry(name, attr, cluster, size);
    assert e[..11] == name;
    assert e[26] == Low(cluster, 0) && e[27] == Low(cluster, 1);
    assert e[20] == Low(cluster, 2) && e[21] == Low(cluster, 3);
    FieldReads(e, 28, size);
  }

  /** The dates are the epoch, the times and the reserved byte zero. */
  lemma {:induction false} EntryDates(name: ShortName, attr: byte, cluster: nat, size: nat)
    ensures var e := DirectoryEntry(name, attr, cluster, size);
            && e[12] == 0 && e[13] == 0 && U16(e[14], e[15]) == 0 && U16(e[22], e[23]) == 0
            && U16(e[16], e[17]) == 0x21 && U16(e[18], e[19]) == 0x21 && U16(e[24], e[25]) == 0x21
  {
    hide Low, U16;
    var e := DirectoryEntry(name, attr, cluster, size);
    assert e[12] == 0 && e[13] == 0 && e[14] == 0 && e[15] == 0 && e[22] == 0 && e[23] == 0;
    assert e[16] == 0x21 && e[17] == 0 && e[18] == 0x21 && e[19] == 0 && e[24] == 0x21 && e[25] == 0;
    SmallWord(0);
    SmallWord(0x21);
  }

  /** All bytes of a directory, following its chain. */
  function ReadDirectory(m: Mounted, first: nat): Option<seq<byte>> {
    match Follow(m.fat, first, |m.fat|)
    case None => None
    case Some(clusters) => ReadClusters(m.per, m.data, clusters)
  }

  function EntryAt(dir: seq<byte>, k: nat): (e: seq<byte>)
    requires ENTRY * k + ENTRY <= |dir|
    ensures |e| == ENTRY
  {
    dir[ENTRY * k..ENTRY * k + ENTRY]
  }

  function ReadEntry(m: Mounted, e: seq<byte>): Option<seq<byte>>
    requires |e| == ENTRY
  {
    ReadFile(m.per, m.fat, m.data, EntryCluster(e), EntrySize(e))
  }
}
