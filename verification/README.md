# SWTOS host tools: serial links, stores and screens

SWTOS runs on a COR24 soft core. The programs around it, written in Rust, Python and PL/SW, move
bytes over links that cut, mix and lose them, and lay bytes out on storage that another program
has to read. This project models those programs and proves that the two ends agree.

* `Protocol.dfy`, `Connection.dfy` — the framed transport on the host: an incremental decoder that
  gives up one byte per rejected candidate, and the negotiation decoder that holds back whatever
  may still become the acknowledgement. Both are classes whose state is tied to a function of
  everything read so far, so results cannot depend on how the stream was cut.
* `Scan.dfy`, `ProtocolScan.dfy`, `AdapterScan.dfy` — both decoders against a reading of the stream
  position by position, and from it exactly which frames a corrupt stream delivers.
* `Adapter.dfy`, `SerialQueue.dfy` — the bounded output queue and the adapter's decoder, which
  reads frames mixed with raw five-byte heartbeats, joined end to end.
* `Fat32Geometry.dfy`, `Fat32Volume.dfy`, `Fat32Image.dfy`, `Fat32Build.dfy`, `Fat32Name.dfy` — the
  FAT32 formatter: geometry, allocator, cluster writes, the image bytes, names, and a reader that
  knows nothing but the FAT32 format and finds every file in the image under its name.
* `Cor24Image.dfy`, `Storage.dfy`, `StorageCheck.dfy`, `StorageLayout.dfy` — executable images and
  the block-aligned program store: builder, validator, lookup and layout.
* `Uart.dfy`, `UartCapture.dfy`, `Clock.dfy`, `Snapshot.dfy`, `SnapshotFigures.dfy`, `Pane.dfy`, `Grid.dfy`, `Lgo.dfy` — the consumers of
  streams: the UART bit sampler, the time frames and the PL/SW program that reads them, the
  resource snapshot assembler, the terminal pane, the pane grid, and the LGO writer and its check.
* `Bytes.dfy`, `Arithmetic.dfy` — searches in byte sequences, the wrapping checksum, and facts
  about quotients.

Objects that change are classes with the source's fields; a ghost field keeps the whole history,
and `Valid()` ties the fields to a function of that history. What the source promises is then
proved of the function. Every lemma switches automatic induction off, so each induction is written
out where it is used. Bytes are integers from 0 to 255 and words are written modulo their width.

## Where the code and its description part

* The comment in `scripts/mkfat32.py:80-82` says one pass over the estimate converges. Four passes
  need not: at 64 MiB with one sector per cluster the estimates go back and forth and the image is
  two sectors too long (`Fat32Geometry.DoesNotFit`). `Fat32Geometry.FitsExactly` gives the
  condition: with `s` sectors and `c` sectors per cluster the volume fits exactly when
  `(s - 32 + c) % (128 * c + 2) >= 2`, wherever `(s - 32 + c) / (128 * c + 2) < 253952 * c * c`. From
  eight sectors per cluster on that is every size a boot sector can declare
  (`FitsExactlyWhenDeclared`). The condition is necessary at any size (`FitsNeedsPhase`); with one
  sector per cluster it is not sufficient at every size (`DoesNotSettle`). An image that does not
  fit is still built and still readable as bytes; it is only longer than it declares.
* `docs/protocol.md:33-36` promises that the next valid frame is recovered even inside a corrupt
  candidate. Neither decoder does that always. The adapter takes any complete candidate away whole,
  so a frame inside one of another version is lost (`AdapterScan.LostInBadCandidate`); the host
  gives up one byte at a time for versions, lengths and checksums, but takes a frame of unknown type
  away whole, with any frame inside it (`ProtocolScan.LostInUnknown`). And behind the beginning of
  a candidate that may still be good both hold everything back, complete frames included, until
  the length it declares has arrived (`HeldBehindPromise` of either module). Exactly: at any moment
  a complete item has been taken if and only if no item taken covers its first byte, and every
  position before it that waits for more bytes is covered by an item taken
  (`AdapterScan.DeliversExactly`, `ProtocolScan.DeliversExactly`). For the adapter every heartbeat
  and every complete candidate is such an item, for the host only a good candidate.
* `validate_storage` does not look at whether extents overlap and accepts stores whose extents do
  (`StorageLayout.OverlapIsAccepted`). The layout of a validated store
  tiles exactly when they do not (`StorageLayout.ValidStoreTiles`), and the builder's stores never
  overlap (`StorageLayout.BuiltStoreTiles`).
* Region ids of the layout are not always unique, not even for a store the builder made
  (`StorageLayout.IdsCollide`): they are if and only if no program whose extent is padded has a
  program with an image a hundred ordinals after it (`StorageLayout.IdsUniqueExactly`).
* The LGO check does not ask for the jump to come last (`Lgo.JumpMayComeFirst`).
* A frame of the other kind is passed over by the time programs only when no byte of its tick is
  27; otherwise they end in the middle of it (`Clock.OtherKind`).
* `docs/windows-usage.md:117` and `docs/user-guide.md:347` say that `g` shows the oldest retained
  output. It scrolls by the number of lines, and then no finished line is in view
  (`Pane.TopIsBlank`). The oldest line is in view exactly when the offset is less than the number
  of lines, and by no more than the rows left for finished lines (`Pane.OldestInView`).

## Model

| member | source | states |
|---|---|---|
| Protocol.TryFrom | tools/te-rs/src/protocol.rs:25-46 | exactly the codes 1 to 13 are frame types, and each is the code of its type |
| Protocol.CodesCount | tools/te-rs/src/protocol.rs:9-23 | the codes count the thirteen types in their order from one |
| Protocol.EncodeBound | tools/te-rs/src/protocol.rs:109-112 | a frame can be encoded if and only if its payload is 1024 bytes or fewer; otherwise the error gives its length |
| Protocol.DrainAppend | tools/te-rs/src/protocol.rs:156-204 | decoding `a` and then `b` gives the results and the residual buffer of decoding `a + b`, wherever the stream is cut |
| Protocol.DrainHolds | tools/te-rs/src/protocol.rs:159-186 | at most 1031 bytes are held between calls, and nothing held is already decidable |
| Protocol.DecoderMeetsReference | tools/te-rs/src/protocol.rs:156-204 | for every prefix of every stream the results are those of a position-by-position scan up to the first position that waits: each complete, version-1, length-bounded, checksum-valid candidate once, an error at any other sync pair, nothing skipped; and what is held are the bytes from that position on |
| Protocol.RoundTrip | tools/te-rs/src/protocol.rs:109-126 | encoded frames with any sync-free noise before, between and after them decode to exactly those frames, in order, with no error |
| Protocol.CandidateIsEncoding | tools/te-rs/src/protocol.rs:187-201 | every frame delivered is, byte for byte, the encoding of that frame, and exactly its bytes are consumed |
| Protocol.Decoder.constructor | tools/te-rs/src/protocol.rs:142-150 | starts with nothing read and nothing held |
| Protocol.Decoder.Clear | tools/te-rs/src/protocol.rs:152-154 | the history starts again with nothing read |
| Protocol.Decoder.Judge | tools/te-rs/src/protocol.rs:169-201 | one candidate: held, rejected with the right error and one byte dropped, or taken whole |
| Protocol.Decoder.Push | tools/te-rs/src/protocol.rs:156-204 | the loop ends; all results so far and the buffer are those of the whole stream read so far |
| Scan.StartsInOrder | tools/te-rs/src/protocol.rs:156-204 | items are taken in order, none inside another |
| Scan.TakenUnlessCovered | tools/te-rs/src/protocol.rs:156-204 | before the reading stops, an item is taken if and only if no item taken covers its first byte |
| Scan.HeldIsFirstWaiting | tools/te-rs/src/protocol.rs:156-204 | the reading stops at the end or at a position that waits, and every waiting position before is covered by an item taken |
| Scan.TakenExactly | tools/te-rs/src/protocol.rs:156-204 | a complete item is taken if and only if no item taken covers it and every waiting position before it is covered |
| ProtocolScan.AcceptIsDecision | tools/te-rs/src/protocol.rs:187-201 | a good candidate of a known type gives the frame whose encoding it is, any other its unknown type |
| ProtocolScan.DeliversExactly | tools/te-rs/src/protocol.rs:156-204 | for every prefix of every stream, frames and unknown types are those of the candidates taken, in order, and a complete good candidate is taken if and only if no candidate taken covers its first byte and every position before it that waits is covered by one |
| ProtocolScan.LostInUnknown | tools/te-rs/src/protocol.rs:193-201 | a frame inside a candidate of unknown type is lost, though by itself it is delivered |
| ProtocolScan.HeldBehindPromise | tools/te-rs/src/protocol.rs:169-186 | a complete frame of up to 1016 payload bytes behind seven bytes that declare a length of 1024 is held back with them, though by itself it is delivered |
| Connection.AckLiteral | tools/te-rs/src/protocol.rs:58-64 | the encoded HELLO_ACK is these twelve bytes |
| Connection.LongestSuffixPrefix | tools/te-rs/src/protocol.rs:298-304 | a proper prefix that the bytes end with, and none is longer |
| Connection.NothingStraddles | tools/te-rs/src/protocol.rs:270-275 | whatever arrives later, no occurrence of the pattern begins in bytes already let go |
| Connection.HeldIsEnough | tools/te-rs/src/protocol.rs:251-271 | searching the held and the new bytes finds the first occurrence in the whole stream, and the same suffix to hold next |
| Connection.SuffixGrowth | tools/te-rs/src/protocol.rs:298-304 | reading n bytes lengthens the held suffix by at most n |
| Connection.NothingLost | tools/te-rs/src/protocol.rs:270-276 | while plain, shown bytes followed by held bytes are the whole stream, held bytes are a proper prefix of the acknowledgement, and it has not occurred |
| Connection.PlainStays | tools/te-rs/src/protocol.rs:270-276 | a read that completes no acknowledgement shows and holds what the whole-stream rule says |
| Connection.PlainEnds | tools/te-rs/src/protocol.rs:254-267 | a read that completes it shows exactly the plain bytes before its first occurrence in the stream |
| Connection.FramedGrows | tools/te-rs/src/protocol.rs:239-249 | once framed, plain bytes never grow and everything further is the frame decoder's |
| Connection.Negotiated | tools/te-rs/src/protocol.rs:238-277 | plain bytes, the acknowledgement, then frames in noise: the plain bytes are shown, the frames come back, nothing else |
| Connection.CorruptIsReported | tools/te-rs/src/protocol.rs:238-277 | a corrupt candidate after the acknowledgement gives one error item: the version, the length, the checksum or the type that is wrong |
| Connection.ConnectionDecoder.PushFramed | tools/te-rs/src/protocol.rs:239-249 | a read after the acknowledgement gives the frame decoder's results and no plain bytes |
| Connection.ConnectionDecoder.constructor | tools/te-rs/src/protocol.rs:223-231 | starts plain, with nothing read |
| Connection.ConnectionDecoder.Push | tools/te-rs/src/protocol.rs:238-277 | however the input is cut, all output so far is the plain bytes before the first acknowledgement, it, and the decoder's results on the rest; no empty plain item |
| Connection.ConnectionDecoder.Resynchronize | tools/te-rs/src/protocol.rs:281-284 | a partial frame is dropped; the mode stays |
| Connection.ConnectionDecoder.Disconnect | tools/te-rs/src/protocol.rs:286-295 | plain again; in plain mode everything read has then been given out |
| Adapter.DrainSkips | tools/cor24-debug-adapter/src/main.rs:315-334 | bytes before the first sync pair or heartbeat change nothing |
| Adapter.DrainAppend | tools/cor24-debug-adapter/src/main.rs:299-356 | the adapter's results do not depend on how the stream is cut |
| Adapter.DrainHolds | tools/cor24-debug-adapter/src/main.rs:335-341 | at most 65542 bytes are held between calls |
| Adapter.BadCandidateIsSwallowed | tools/cor24-debug-adapter/src/main.rs:338-353 | a complete candidate with another version or a wrong checksum is dropped with everything inside it |
| AdapterScan.DrainFrom | tools/cor24-debug-adapter/src/main.rs:299-356 | for any stretch of any stream, the frames given are those of a scan position by position up to the first position that waits, and what is held are the bytes from there on |
| AdapterScan.DeliversExactly | tools/cor24-debug-adapter/src/main.rs:299-356 | for every prefix of every stream, the frames given are those of the items taken, in order, and a heartbeat or complete candidate is taken if and only if no item taken covers its first byte and every position before it that waits is covered by one |
| AdapterScan.LostInBadCandidate | tools/cor24-debug-adapter/src/main.rs:338-353 | any frame of up to 65527 payload bytes is lost inside a candidate of another version, though by itself it is delivered |
| AdapterScan.HeldBehindPromise | tools/cor24-debug-adapter/src/main.rs:335-341 | any complete frame of up to 65527 payload bytes behind seven bytes that declare a length of 65535 is held back with them, though by itself it is delivered |
| AdapterScan.NoisyRoundTrip | tools/cor24-debug-adapter/src/main.rs:299-356 | frames and heartbeats with noise free of sync pairs and heartbeat prefixes before, between and after them come back as sent |
| Adapter.HostFrames | tools/cor24-debug-adapter/src/main.rs:387-405 | the host's encoder and the adapter's make the same bytes |
| Adapter.DeliveryShows | tools/te-rs/src/main.rs:731-733 | a delivered heartbeat is a raw-UART frame of five bytes from which the tick can be read back in 24 bits, low byte first |
| Adapter.RoundTrip | tools/cor24-debug-adapter/src/main.rs:299-356 | any interleaving of frames (payloads up to 65535, any contents) and heartbeats comes back as sent, with nothing left over; every frame's parts and every heartbeat's tick can be read from it |
| Adapter.EndToEnd | tools/cor24-debug-adapter/src/main.rs:299-356 | from a beginning of the stream, a beginning of the items in order; from all of it, all of them |
| Adapter.Decoder.constructor | tools/cor24-debug-adapter/src/main.rs:289-292 | starts with nothing read |
| Adapter.Decoder.TakeCandidate | tools/cor24-debug-adapter/src/main.rs:335-353 | a candidate is held until it is complete, then taken whole, with its frame if it is good |
| Adapter.Decoder.Push | tools/cor24-debug-adapter/src/main.rs:299-356 | the loop ends, though one path emits nothing; frames and buffer are those of the whole stream |
| SerialQueue.Queue.constructor | tools/te-rs/src/main.rs:1117 | an empty queue |
| SerialQueue.Queue.QueueSerial | tools/te-rs/src/main.rs:433-439 | accepts exactly what keeps the backlog within 65536, whole or not at all |
| SerialQueue.SendingExactly | tools/te-rs/src/main.rs:441-455 | as much is sent as the attempts up to the first that stops accept, and no more than is queued; it fails if and only if that attempt is an error while something is queued, so a full port or one that accepts nothing is no failure |
| SerialQueue.InterruptionsDoNotMatter | tools/te-rs/src/main.rs:450 | interrupted attempts change nothing |
| SerialQueue.Queue.FlushSerial | tools/te-rs/src/main.rs:441-455 | for any partial writes and interruptions, bytes written followed by bytes queued are the accepted messages in order, with the bytes left and the failure as just said |
| SerialQueue.SendingEmpties | tools/te-rs/src/main.rs:441-455 | a port that accepts something every time empties the queue, with no error |
| SerialQueue.QueueToAdapter | tools/te-rs/src/main.rs:433-455 | what the queue has written decodes at the adapter as an in-order prefix of the accepted items, parts and ticks readable, all of them once the queue is empty |
| Fat32Geometry.Solve | scripts/mkfat32.py:83-94 | four passes; the FAT has a slot for every cluster and two more |
| Fat32Geometry.EstimatesBracket | scripts/mkfat32.py:83-87 | c1 <= c3 <= c4 <= c2 <= c0 |
| Fat32Geometry.SettledFits | scripts/mkfat32.py:85-100 | if the last two estimates ask for the same FAT, the volume fits with less than one cluster left over |
| Fat32Geometry.FitsNeedsPhase | scripts/mkfat32.py:83-100 | a volume of any size that fits meets the remainder condition |
| Fat32Geometry.RightFat | scripts/mkfat32.py:83-88 | under the condition there is a FAT size that is right for what it leaves |
| Fat32Geometry.PhaseSettles | scripts/mkfat32.py:83-88 | under it, and with fewer than 253952 * c * c blocks of 128 * c + 2 sectors, four passes reach that size, one FAT sector more than blocks |
| Fat32Geometry.FitsExactly | scripts/mkfat32.py:80-100 | with fewer than that many blocks the volume fits if and only if the condition holds, and then tightly |
| Fat32Geometry.FitsExactlyWhenDeclared | scripts/mkfat32.py:80-100 | from eight sectors per cluster on, so it does at every size below 2^32 sectors |
| Fat32Geometry.DoesNotFit | scripts/mkfat32.py:80-88 | 64 MiB at one sector per cluster: 129024 clusters and two sectors too many |
| Fat32Geometry.DoesNotSettle | scripts/mkfat32.py:80-88 | with one sector per cluster and 33554463 sectors the condition holds and the volume does not fit |
| Fat32Volume.FollowFinds | scripts/mkfat32.py:109-112 | following the FAT from an allocated cluster gives its clusters and ends |
| Fat32Volume.ReadsBack | scripts/mkfat32.py:103-124 | following the FAT and cutting to size gives back what was written |
| Fat32Volume.ChainsApart | scripts/mkfat32.py:103-114 | chains are acyclic, inside the allocated clusters, and no two share one |
| Fat32Volume.FreeCount | scripts/mkfat32.py:167-168 | entries counted one by one as free are clusters less those handed out |
| Fat32Volume.WriteKeeps | scripts/mkfat32.py:116-124 | writing one chain leaves every other chain's bytes as they were |
| Fat32Volume.AllocateKeeps | scripts/mkfat32.py:103-114 | allocating leaves every chain, its links and its bytes as they were |
| Fat32Volume.Needed | scripts/mkfat32.py:105-106 | enough clusters for the bytes, at least one, and otherwise no more than needed |
| Fat32Volume.Volume.constructor | scripts/mkfat32.py:95-101 | an empty sound volume |
| Fat32Volume.Volume.Allocate | scripts/mkfat32.py:103-114 | a new chain of exactly the clusters needed, or an error exactly when they are not there and then no change |
| Fat32Volume.Volume.WriteClusterChain | scripts/mkfat32.py:116-124 | the chain holds the payload and the volume stays sound; fails exactly when the chain is too short, with the chain full and one more piece past the end of the data area |
| Fat32Image.BootNumbers | scripts/mkfat32.py:126-161 | every field of the boot sector, read as a host reads it |
| Fat32Image.MountFinds | scripts/mkfat32.py:126-182 | a host that checks the boot sector, finds FSInfo and the backup where it says, checks their signatures and that both FATs agree, gets cluster size, declared sectors, root, free count, next free cluster, FAT and data area |
| Fat32Image.TableReads | scripts/mkfat32.py:179-182 | the FAT read from the image is the FAT in memory |
| Fat32Image.EntryReads | scripts/mkfat32.py:56-72 | a directory entry gives back its name, attribute, first cluster and size |
| Fat32Image.EntryDates | scripts/mkfat32.py:56-72 | the dates of an entry are the epoch, its times zero |
| Fat32Build.AddFile | scripts/mkfat32.py:214-218 | the entry names a chain that holds the file; chains written before stay |
| Fat32Build.AddFiles | scripts/mkfat32.py:205-209 | every file is listed in order, and fails exactly when clusters run out or a size does not fit |
| Fat32Build.AddDirectory | scripts/mkfat32.py:196-212 | a cluster with the two dot entries and the files; fails exactly when it exceeds one cluster or the volume |
| Fat32Build.AddDirectories | scripts/mkfat32.py:196-212 | the same for all subdirectories |
| Fat32Build.Table | scripts/mkfat32.py:179-181 | the packed table is the FAT, four bytes an entry, low byte first |
| Fat32Build.Image | scripts/mkfat32.py:172-182 | header, two tables and data, unless a number exceeds its field |
| Fat32Build.ImageIsReadable | scripts/mkfat32.py:172-182 | what the allocator knows of its chains is what a reader of the image finds |
| Fat32Build.Finish | scripts/mkfat32.py:214-224 | the root directory and the image |
| Fat32Build.Build | scripts/mkfat32.py:185-228 | succeeds exactly when everything fits; then, from the image alone, the root holds the label, every subdirectory and every file with its name and exactly its bytes, each subdirectory likewise, directories end there; FSInfo counts the free FAT entries and points at the first; the boot sector declares the size asked for, and the image is no longer than that exactly when the geometry fits, with less than a cluster left over when it fits tightly |
| Fat32Name.ShortNameIsUsable | scripts/mkfat32.py:41-53 | an encoded name never ends a directory or marks a deleted entry, and is a dot name only for a dot name |
| Fat32Name.ShortNameReads | scripts/mkfat32.py:47-53 | the eleven bytes are what stands before the first dot, what stands after it, and spaces |
| Fat32Name.DotNames | scripts/mkfat32.py:43-46 | the dot names are their dots and spaces |
| Fat32Name.AlphabetIs | scripts/mkfat32.py:50 | the characters a name may hold |
| Fat32Name.SameShortName | scripts/mkfat32.py:41-53 | two names get the same entry name if and only if their upper-case forms agree before and after the first dot |
| Fat32Name.LookupListed | scripts/mkfat32.py:191-223 | looking a listed name up finds its own entry, any other name none |
| Fat32Name.FoundByName | scripts/mkfat32.py:185-228 | in a readable image whose directories have distinct names, every file and subdirectory is found by looking its name up, with its bytes, and no other name is found |
| Cor24Image.WordReads | scripts/cor24-image.py:33-40 | reading a written word gives it back |
| Cor24Image.ReadIsWord | scripts/cor24-image.py:33-40 | any three bytes are the word read from them, written |
| Cor24Image.ValidatesExactlyBuilt | scripts/cor24-image.py:122-149 | a byte string is accepted if and only if it is what the builder makes of its own fields and payload, for fields the manifest rules allow |
| Cor24Image.BuiltParses | scripts/cor24-image.py:91-102 | every field and the payload can be read back from what is built |
| Cor24Image.BuiltLayout | scripts/cor24-image.py:91-102 | magic, seven big-endian words and payload, each at its place |
| Cor24Image.BuiltIsAccepted | scripts/cor24-image.py:91-149 | what an acceptable manifest builds validates as that manifest |
| Cor24Image.LoadedBuilds | scripts/cor24-image.py:56-102 | every manifest that loads builds an image that validates and carries its payload |
| Cor24Image.LoadsExactly | scripts/cor24-image.py:56-88 | a manifest loads if and only if its fields are acceptable with the payload assembled from the explicit bytes, the zero words and the suffix, and it then has that payload |
| Storage.AlignIsLeast | scripts/cor24-storage.py:39-40 | the least multiple of the boundary not below the value |
| Storage.CursorPasses | scripts/cor24-storage.py:59-62 | each image with its padding ends before any later one begins |
| Storage.OffsetsAreLeast | scripts/cor24-storage.py:45-62 | every image starts at the least multiple of the alignment past the index and past the blocks of the images before it |
| Storage.ExtentsWellPlaced | scripts/cor24-storage.py:45-66 | extents start in whole blocks past the index and do not meet, for any alignment that is a multiple of eight |
| Storage.FillSucceeds | scripts/cor24-storage.py:71-82 | well-placed images never reach the internal layout error |
| Storage.FillHolds | scripts/cor24-storage.py:74-81 | every image is at its offset, whatever is stored after it |
| Storage.FillerIsZero | scripts/cor24-storage.py:73-81 | between the images is nothing but zeros |
| Storage.FillEnds | scripts/cor24-storage.py:74-82 | the store ends with its index or with the last block of an image |
| Storage.BuildStorage | scripts/cor24-storage.py:43-82 | succeeds exactly when every number fits its field; never the internal layout error |
| Storage.PlaceImages | scripts/cor24-storage.py:45-66 | a record and an extent for every entry |
| Storage.Join | scripts/cor24-storage.py:68 | the records one after another |
| Storage.WriteImages | scripts/cor24-storage.py:71-82 | every image at its offset, padded to whole blocks |
| StorageCheck.HeaderFault | scripts/cor24-storage.py:86-96 | no fault exactly when size, version, magic, length and checksum are right |
| StorageCheck.RecordFault | scripts/cor24-storage.py:99-124 | no fault exactly when name, ordinal, flags and extent are right |
| StorageCheck.ExtentFault | scripts/cor24-storage.py:116-124 | no fault exactly when the extent is past the index, in blocks, inside, and a valid image, or absent |
| StorageCheck.ValidateStorage | scripts/cor24-storage.py:85-125 | accepts exactly the valid stores, names all different, and counts entries, images and blocks |
| StorageCheck.FindName | scripts/cor24-storage.py:131-143 | the first record with the name, or none has it |
| StorageCheck.CatalogEntry | scripts/cor24-storage.py:128-143 | ordinal, offset and length of the first record with the name, or the right error |
| StorageCheck.BuiltIndex | scripts/cor24-storage.py:68-73 | the header and records of a built store read back as written |
| StorageCheck.BuiltRecord | scripts/cor24-storage.py:48-66 | each record of a built store is valid and says where its image is |
| StorageCheck.BuiltStoreServes | scripts/cor24-storage.py:43-143 | a built store validates, its extents are disjoint, and looking an entry up by name gives an extent holding exactly the image built for it |
| StorageCheck.BuiltLayout | scripts/cor24-storage.py:63-73 | header and records of a built store, each field at its byte |
| StorageCheck.ValidInBytes | scripts/cor24-storage.py:85-125 | a store is valid if and only if its bytes are as the rules say, spelled out byte by byte |
| StorageLayout.CatalogRecords | scripts/storage-layout.py:73-90 | every record in ordinal order |
| StorageLayout.BuiltRecordsRead | scripts/storage-layout.py:73-90 | the records read from a built store are those of its entries |
| StorageLayout.SortSorts | scripts/storage-layout.py:154-155 | address order, with no record lost or added |
| StorageLayout.Walk | scripts/storage-layout.py:142-182 | all regions in address order |
| StorageLayout.WalkImages | scripts/storage-layout.py:156-176 | the images and the padding before each |
| StorageLayout.RegionIds | scripts/storage-layout.py:127-182 | ids, kinds, owners and extents of every sort of region |
| StorageLayout.DisjointIsChained | scripts/storage-layout.py:154-176 | in address order, extents that do not meet are those that follow one another |
| StorageLayout.RowsTile | scripts/storage-layout.py:142-182 | the regions tile the space if and only if the extents are disjoint and past the index |
| StorageLayout.ValidStoreTiles | scripts/storage-layout.py:218-227 | for any validated store, if and only if its extents are disjoint |
| StorageLayout.BuiltStoreTiles | scripts/storage-layout.py:218-227 | always, for a store the builder made |
| StorageLayout.RowsHaveBytes | scripts/storage-layout.py:146-182 | every region has a positive length, unless there are no programs |
| StorageLayout.IdsUniqueExactly | scripts/storage-layout.py:127-182 | region ids are unique if and only if no program whose extent starts after the end of the one before it has a program with an image a hundred ordinals after it |
| StorageLayout.IdsUnique | scripts/storage-layout.py:127-134 | so they are while every program with an image is among the first hundred |
| StorageLayout.BuiltIdsCollide | scripts/storage-layout.py:127-182 | in any built store of more than a hundred programs, the first and the one with ordinal 100 having images, ids collide if the index does not end at a multiple of the alignment |
| StorageLayout.IdsCollide | scripts/storage-layout.py:127-182 | there is such a store: 101 programs, images aligned to 4096 bytes |
| StorageLayout.OverlapIsAccepted | scripts/cor24-storage.py:97-125 | for any image that fits, a store of two programs with one extent between them is valid, and its regions do not tile |
| StorageLayout.SmallestIsShared | scripts/cor24-storage.py:97-125 | there is such an image |
| StorageLayout.EdgesJoinRegions | scripts/storage-layout.py:185-200 | every edge joins the catalog to an image region; image regions and records with an image correspond one to one |
| Uart.RunAppend | tools/te-rs/src/bin/sr-report.rs:87-110 | sampling a waveform in two parts is sampling it whole |
| Uart.Steady | tools/te-rs/src/bin/sr-report.rs:87-110 | between bytes a line that keeps its level changes nothing |
| Uart.OneBit | tools/te-rs/src/bin/sr-report.rs:96-98 | the bits collected low bit first are the byte's remainder by the next weight |
| Uart.FrameDecodes | tools/te-rs/src/bin/sr-report.rs:87-110 | at a whole number of two or more samples per bit, one byte is given back whole from its cells, or dropped whole when its stop bit is low |
| Uart.WaveDecodes | tools/te-rs/src/bin/sr-report.rs:87-110 | any bytes, with any idle gaps or none, at any whole number of two or more samples per bit, give exactly those bytes with their start indices |
| UartCapture.FourIsInside | tools/te-rs/src/bin/sr-report.rs:94-100 | at four or more samples per bit, fractional or not, every sampling point stays in its own cell, wherever the edge falls |
| UartCapture.FastEnough | docs/hw-validation.md:199-209 | from 3.6864 MHz on, and so at the 4 and 24 MHz that captures are made at, there are four |
| UartCapture.WholeIsInside | tools/te-rs/src/bin/sr-report.rs:94-100 | and so it does at two or more whole samples per bit with whole edges |
| UartCapture.BitRead | tools/te-rs/src/bin/sr-report.rs:94-100 | each data bit is read once, at the first sample when it is due, and its weight added |
| UartCapture.FrameRead | tools/te-rs/src/bin/sr-report.rs:87-110 | a frame whose sampling points stay in their cells is reported with the first sample after its edge, if and only if its stop bit is high |
| UartCapture.LineRead | tools/te-rs/src/bin/sr-report.rs:87-110 | and so is the rest of a line, from between any two frames |
| UartCapture.CaptureDecodes | tools/te-rs/src/bin/sr-report.rs:73-110 | the sampler reports exactly the frames of a capture, at any rate at which the sampling points stay in their cells |
| UartCapture.AnyRateDecodes | tools/te-rs/src/bin/sr-report.rs:73-110 | at any real number of four or more samples per bit, with edges anywhere between samples, exactly the bytes whose stop bit is high are reported, with their start indices |
| UartCapture.LinesExist | tools/te-rs/src/bin/sr-report.rs:87-110 | any frames one after another can be captured so |
| Uart.UartDecoder.constructor | tools/te-rs/src/bin/sr-report.rs:74-85 | an idle line with nothing sampled; samples per bit are the rate over 921600 |
| Uart.UartDecoder.Sample | tools/te-rs/src/bin/sr-report.rs:87-110 | the events so far are those of all levels sampled so far; setting a bit adds its weight |
| Clock.EncodeTimeFrame | tools/te-rs/src/main.rs:675-685 | mark, kind and three stuffed bytes |
| Clock.TimeFrameExamples | tools/te-rs/src/main.rs:2018-2024 | two frames byte by byte |
| Clock.FramesAreClean | tools/te-rs/src/main.rs:675-695 | a run of frames holds no exit key 0x1D, no restart pair and no reboot pair |
| Clock.FrameIsRead | include/clock_app.msw:11-24 | the reader recovers the tick and stops at the frame's last byte, whatever the bytes |
| Clock.RunPrintsSeconds | include/clock_app.msw:62-113 | for any 24-bit ticks, one line for the first frame and one for each change of second; not ended by any payload byte; ended by the escape after the frames, with the rest unread |
| Clock.LineBelowLimit | include/clock_app.msw:87-109 | for ticks below 2^23 the second is a hundredth of the tick and the line is that second's |
| Clock.StrayByte | include/clock_app.msw:77-81 | a payload byte outside a frame is passed over unless it is an escape |
| Clock.OtherKind | include/clock_app.msw:77-82 | a frame of the other kind is passed over if no byte of its tick is an escape, and ends the program otherwise |
| Clock.UptimeLine | include/clock_app.msw:33-45 | two digits of minutes and two of seconds that tell the time modulo 100 minutes |
| Clock.ClockLine | include/clock_app.msw:47-60 | hours, minutes and seconds that add up to the second printed |
| Clock.Terminal.GetChar | include/menu.msw:16-35 | the next byte, or waiting |
| Clock.Terminal.TimeGetPayload | include/clock_app.msw:11-24 | one payload byte, unstuffed |
| Clock.Terminal.TimePrint2 | include/clock_app.msw:26-31 | two digits |
| Clock.Terminal.UptimePrint | include/clock_app.msw:33-45 | prints the uptime line |
| Clock.Terminal.ClockPrint | include/clock_app.msw:47-60 | prints the clock line |
| Clock.Terminal.TimeApp | include/clock_app.msw:62-113 | for every input, prints and leaves unread what the reader as a function says |
| Snapshot.DescribedAdded | tools/te-rs/src/resource.rs:80-135 | applying records one by one gives what the last record of each kind and endpoint says |
| Snapshot.OrderAcrossKeys | tools/te-rs/src/resource.rs:80-135 | records that differ in kind or endpoint may be reordered |
| Snapshot.PendingIs | tools/te-rs/src/resource.rs:69-78 | an open generation holds what its own records since its BEGIN describe; other generations' records have no effect |
| Snapshot.PublishesWhenComplete | tools/te-rs/src/resource.rs:136-147 | a payload publishes if and only if it is the END of the open generation, and then publishes what its records describe |
| Snapshot.CurrentIsLastCompleted | tools/te-rs/src/resource.rs:62-151 | after any run the current snapshot is the one last completed |
| Snapshot.NothingBeforeCompletion | tools/te-rs/src/resource.rs:149-151 | and there is none before one is completed |
| Snapshot.ReorderingPublishesTheSame | tools/te-rs/src/resource.rs:62-147 | two runs whose generations differ only in the order across kinds and endpoints publish the same snapshot |
| SnapshotFigures.MemoryReads | tools/te-rs/src/resource.rs:83-101 | a memory record written from figures, low byte first, gives those figures, with and without the heap |
| SnapshotFigures.ProcessReads | tools/te-rs/src/resource.rs:102-112 | a process record gives its seven figures and leaves the others |
| SnapshotFigures.IoReads | tools/te-rs/src/resource.rs:115-128 | an I/O record gives its three counters and the name before the first zero |
| SnapshotFigures.PreemptionReads | tools/te-rs/src/resource.rs:129-135 | a preemption record gives its two counters |
| SnapshotFigures.EndReads | tools/te-rs/src/resource.rs:136-140 | an END record gives its three counters |
| SnapshotFigures.UnsaidIsZero | tools/te-rs/src/resource.rs:69-75 | what no record has said is zero |
| SnapshotFigures.ByEndpointHolds | tools/te-rs/src/resource.rs:103-105 | each process is listed under its endpoint |
| SnapshotFigures.FiguresArePublished | tools/te-rs/src/resource.rs:62-147 | after any run, BEGIN, a memory record, the records of any processes with different endpoints, and END publish a snapshot with exactly their figures |
| Snapshot.Assembler.constructor | tools/te-rs/src/resource.rs:54-59 | nothing pending, nothing published |
| Snapshot.Assembler.Push | tools/te-rs/src/resource.rs:62-147 | the state is that of the whole run; true if and only if a generation is completed |
| Snapshot.Assembler.Disconnect | tools/te-rs/src/resource.rs:153-157 | nothing stays current |
| Pane.FormFeedForgets | tools/te-rs/src/ui.rs:112-116 | the text is that of the bytes after the last form feed |
| Pane.LinesAreBounded | tools/te-rs/src/ui.rs:124-126 | the unfinished line stays under 4096 bytes, a finished one under 4099 |
| Pane.LineIsShown | tools/te-rs/src/ui.rs:121-122 | from an empty line, shown bytes that take less than 4096 stand on it: a byte from 32 to 126 as itself, any other as U+FFFD, which takes three |
| Pane.LongLineBreaks | tools/te-rs/src/ui.rs:124-126 | the byte with which they reach 4096 ends the line |
| Pane.NewlineEndsLine | tools/te-rs/src/ui.rs:106 | a newline ends the line, whatever it holds |
| Pane.ReturnRestarts | tools/te-rs/src/ui.rs:107 | bytes before a carriage return on an unfinished line do not matter |
| Pane.EraseUndoes | tools/te-rs/src/ui.rs:118-122 | a backspace or delete undoes the character before it |
| Pane.EraseNothing | tools/te-rs/src/ui.rs:118-120 | and does nothing on an empty line |
| Pane.TextIsKept | tools/te-rs/src/ui.rs:103-134 | without editing bytes, all text is kept in order, whatever line breaks are added |
| Pane.AsciiIsKept | tools/te-rs/src/ui.rs:103-134 | all the text of printable bytes and newlines is those bytes without the newlines |
| Pane.LastAdded | tools/te-rs/src/ui.rs:129-134 | cutting to the limit after every line keeps the last lines of all |
| Pane.LastIsSuffix | tools/te-rs/src/ui.rs:129-134 | what is kept are the last lines |
| Pane.VisibleIsWindow | tools/te-rs/src/ui.rs:136-145 | at most the height; unscrolled the last rows, scrolled the last rows before the offset |
| Pane.ViewIsVisible | tools/te-rs/src/ui.rs:136-145 | the rows shown are the lines in view, by position and in order, and then perhaps the unfinished one |
| Pane.FoundLineIsVisible | tools/te-rs/src/ui.rs:467-475 | scrolling to a found line shows it if and only if there is a row for finished lines; otherwise nothing, unless it is the last line |
| Pane.OldestInView | tools/te-rs/src/ui.rs:257-267 | the oldest line is in view if and only if the offset is below the number of lines, by no more than the rows for finished lines |
| Pane.TopIsBlank | tools/te-rs/src/ui.rs:270-274 | scrolling by the number of lines never shows the oldest line, and shows something if and only if there is only an unfinished line |
| Pane.Pane.constructor | tools/te-rs/src/ui.rs:84-101 | an empty pane |
| Pane.Pane.FinishLine | tools/te-rs/src/ui.rs:129-134 | the line is added and the oldest beyond the limit are dropped |
| Pane.Pane.PushByte | tools/te-rs/src/ui.rs:104-126 | one byte, after which the pane still holds the last lines of an unbounded terminal |
| Pane.Pane.Push | tools/te-rs/src/ui.rs:103-127 | the lines are the last `limit` lines of an unbounded terminal given everything so far, however it was cut |
| Pane.Pane.VisibleLines | tools/te-rs/src/ui.rs:136-145 | the last rows, or the last before the offset, and at most the height |
| Grid.BandIs | tools/te-rs/src/ui.rs:672-685 | sharing a length in bands gives every cell to exactly one |
| Grid.EdgeIsShare | tools/te-rs/src/ui.rs:672-685 | a band begins after the cells of the rules and the part of the total before it, rounded down |
| Grid.SideBySide | tools/te-rs/src/ui.rs:662-668 | one pane has the whole width; two or more stand two to a row, with half the width less the separator |
| Grid.RegionsPartition | tools/te-rs/src/ui.rs:652-698 | rules, separators and content rectangles cover every cell and are pairwise disjoint |
| Grid.PlaceOfPane | tools/te-rs/src/ui.rs:682-684 | every pane has exactly one place |
| Grid.CellShows | tools/te-rs/src/ui.rs:652-801 | what is drawn in each cell: bar, dashes, name from its lead on, or the visible text from the horizontal offset on |
| Grid.OtherCellsDoNotChange | tools/te-rs/src/ui.rs:652-698 | changing one pane changes no cell outside its rectangle and its own column of the rule above |
| Grid.WriteLabel | tools/te-rs/src/ui.rs:756-774 | the label from its column on, clipped to the column; nothing else changes |
| Grid.DrawText | tools/te-rs/src/ui.rs:793-799 | one line, skipped and clipped; nothing else changes |
| Grid.DrawPaneContent | tools/te-rs/src/ui.rs:777-801 | the visible rows in the rectangle; no cell outside it changes |
| Grid.DrawRule | tools/te-rs/src/ui.rs:702-730 | the rule with its separators and labels; no other row changes |
| Grid.DrawSeparator | tools/te-rs/src/ui.rs:688-694 | one column of the band |
| Grid.DrawRow | tools/te-rs/src/ui.rs:680-697 | the panes and separators of one row of panes; no cell outside the band changes |
| Grid.DrawGrid | tools/te-rs/src/ui.rs:652-699 | for any number of panes and any canvas, every cell holds what its place says, or the canvas is unchanged when the rules alone fill it |
| Lgo.PaddedValue | scripts/cor24-bin-to-lgo.py:21 | the number written in hexadecimal reads back |
| Lgo.FromHexOf | scripts/cor24-bin-to-lgo.py:21 | the bytes written in hexadecimal read back |
| Lgo.DigitIs | scripts/cor24-bin-to-lgo.py:21 | digits and upper-case letters |
| Lgo.AddressDigits | scripts/cor24-bin-to-lgo.py:21-22 | an address is six digits from the highest down |
| Lgo.ByteDigits | scripts/cor24-bin-to-lgo.py:21 | a byte is two digits, high one first |
| Lgo.RecordIs | scripts/cor24-bin-to-lgo.py:19-21 | record k holds n bytes from k * n on, or what is left, and there are just enough |
| Lgo.EncodedAlphabet | scripts/cor24-bin-to-lgo.py:18-23 | the text is upper-case hexadecimal, record letters and line feeds |
| Lgo.SplitText | scripts/cor24-bin-to-lgo.py:23-30 | splitting the joined lines gives the lines |
| Lgo.Encode | scripts/cor24-bin-to-lgo.py:10-23 | succeeds exactly for arguments in range, and writes the records and the jump |
| Lgo.Verify | scripts/cor24-bin-to-lgo.py:26-54 | accepts exactly the texts whose lines pass one by one and whose data and jumps are as expected |
| Lgo.CheckedIsLoaded | scripts/cor24-bin-to-lgo.py:26-47 | a loader of plain hexadecimal lines that pass holds what the check rebuilt |
| Lgo.AcceptedLoadsExactly | scripts/cor24-bin-to-lgo.py:26-54 | an accepted plain text loads exactly the expected bytes at contiguous addresses, nothing else, and jumps once to the entry |
| Lgo.AcceptsExactly | scripts/cor24-bin-to-lgo.py:26-54 | a plain text is accepted if and only if its data records follow one another from the load address, hold the expected bytes, and the one jump is to the entry |
| Lgo.PlainParsers | scripts/cor24-bin-to-lgo.py:33-45 | parsers with the assumed behaviour on plain hexadecimal exist |
| Lgo.RecordsPass | scripts/cor24-bin-to-lgo.py:18-23 | the records of any data pass the check one after another |
| Lgo.EncodedIsAccepted | scripts/cor24-bin-to-lgo.py:10-54 | whatever is written is accepted and loads the data it was made from |
| Lgo.JumpMayComeFirst | scripts/cor24-bin-to-lgo.py:49-54 | a text that jumps before its data is accepted too |

## Left out

- Fat32Build.Build: asks for cluster numbers below 0x0FFFFFF7, because a volume with more has no meaning in FAT32, and does not state which of several errors is raised first.
- Fat32Name.ShortNameIsUsable: the language's conversion to upper case is an arbitrary function.
- Adapter.RoundTrip: payloads of more than 65535 bytes, whose length field is cut to sixteen bits, do not come back.
- Clock.Terminal.TimeApp: what the target's division gives for a negative INT (ticks of 2^23 and more), and what is printed of a number out of range, are arbitrary functions; the hint line printed before the loop is not modelled.
- Uart.WaveDecodes: covers whole numbers of samples per bit; UartCapture.AnyRateDecodes covers fractions.
- Uart.FrameDecodes: likewise; UartCapture.FrameRead covers fractions.
- UartCapture.CaptureDecodes: sample times are reals instead of 64-bit floating-point numbers; the line is taken without noise.
- Snapshot.Assembler.Push: names are the bytes before the first zero, without the replacement of malformed UTF-8.
- Lgo.AcceptedLoadsExactly: texts that Python's number and byte parsers accept beyond plain hexadecimal are checked through arbitrary parser functions but not loaded.
- Grid.DrawGrid: labels are given as text; the canvas is rectangular, as its only caller makes it.
- CRC-32 is an arbitrary function to 24-bit words.
- `Negotiator`, which repeats the test for the acknowledgement that the decoder makes.
- `write_all_retrying` and `write_frame` of the adapter, a simpler form of the queue's flush.
- `image_fields`, the columns and the provenance of the layout document, which copy header fields.
- TOML, the name pattern and the other checks of the catalog generator: its conclusions are preconditions of the store builder.
- Zoomed and help screens (`draw_box`), focus, copy mode and session files of the desktop.
- Serial ports, terminals, clocks and event loops; writers are arbitrary sequences of accepted counts.
- The kernel, the disassembler and the debugger console.
