/**
  * Formatting a volume with files and directories (`build` of scripts/mkfat32.py), and the
  * theorem that a reader of the finished image finds every file.
  */
module Fat32Build {
  import opened Arithmetic
  import opened Bytes
  import opened Fat32Geometry
  import opened Fat32Volume
  import opened Fat32Image

  datatype File = File(name: ShortName, payload: seq<byte>)

  datatype Directory = Directory(name: ShortName, children: seq<File>)

  datatype BuildError =
    | BadGeometry(error: GeometryError)
    | VolumeIsFull
    | DirectoryExceedsCluster
    | FieldOverflows

  const DOT: ShortName := [0x2e, 0x20, 0x20, 0x20, 0x20, 0x20, 0x20, 0x20, 0x20, 0x20, 0x20]
  const DOT_DOT: ShortName := [0x2e, 0x2e, 0x20, 0x20, 0x20, 0x20, 0x20, 0x20, 0x20, 0x20, 0x20]

  // ----- What a reader must find -----

  ghost predicate FileRead(m: Mounted, e: seq<byte>, f: File)
    requires |e| == ENTRY
  {
    EntryName(e) == f.name && e[11] == 0x20 && ReadEntry(m, e) == Some(f.payload)
  }

  ghost predicate FilesRead(m: Mounted, dir: seq<byte>, at: nat, files: seq<File>) {
    && ENTRY * (at + |files|) <= |dir|
    && forall i | 0 <= i < |files| :: FileRead(m, EntryAt(dir, at + i), files[i])
  }

  ghost predicate EndsAfter(dir: seq<byte>, entries: nat) {
    forall i | ENTRY * entries <= i < |dir| :: dir[i] == 0
  }

  ghost predicate DirectoryRead(m: Mounted, e: seq<byte>, d: Directory)
    requires |e| == ENTRY
  {
    && EntryName(e) == d.name && e[11] == 0x10
    && match ReadDirectory(m, EntryCluster(e))
       case None => false
       case Some(sub) =>
         && FilesRead(m, sub, 2, d.children) && EndsAfter(sub, 2 + |d.children|)
         && EntryAt(sub, 0) == DirectoryEntry(DOT, ATTR_DIRECTORY, EntryCluster(e), 0)
         && EntryAt(sub, 1) == DirectoryEntry(DOT_DOT, ATTR_DIRECTORY, 0, 0)
  }

  ghost predicate DirectoriesRead(m: Mounted, dir: seq<byte>, at: nat, directories: seq<Directory>) {
    && ENTRY * (at + |directories|) <= |dir|
    && forall j | 0 <= j < |directories| :: DirectoryRead(m, EntryAt(dir, at + j), directories[j])
  }

  /** Starting from the image alone, every entry is found with its name, and every file with its bytes. */
  ghost predicate Readable(image: seq<byte>, volumeLabel: ShortName, files: seq<File>, directories: seq<Directory>) {
    match Mount(image)
    case None => false
    case Some(m) =>
      match ReadDirectory(m, m.root)
      case None => false
      case Some(dir) =>
        && |dir| >= ENTRY && EntryAt(dir, 0) == DirectoryEntry(volumeLabel, 0x08, 0, 0)
        && DirectoriesRead(m, dir, 1, directories)
        && FilesRead(m, dir, 1 + |directories|, files)
        && EndsAfter(dir, 1 + |directories| + |files|)
  }

  // ----- What the builder knows about its chains -----

  ghost predicate Listed(chains: map<nat, Chain>, e: seq<byte>, f: File) {
    && |e| == ENTRY && EntryName(e) == f.name && e[11] == ATTR_FILE && EntrySize(e) == |f.payload|
    && (f.payload != [] ==> EntryCluster(e) in chains && chains[EntryCluster(e)].written == f.payload)
  }

  ghost predicate FilesListed(chains: map<nat, Chain>, dir: seq<byte>, at: nat, files: seq<File>) {
    && ENTRY * (at + |files|) <= |dir|
    && forall i | 0 <= i < |files| :: Listed(chains, EntryAt(dir, at + i), files[i])
  }

  ghost predicate DirectoryListed(per: nat, chains: map<nat, Chain>, e: seq<byte>, d: Directory) {
    && |e| == ENTRY && EntryName(e) == d.name && e[11] == ATTR_DIRECTORY && EntryCluster(e) in chains
    && var chain := chains[EntryCluster(e)];
    && chain.count == 1 && |chain.written| == per > 0
    && FilesListed(chains, chain.written, 2, d.children) && EndsAfter(chain.written, 2 + |d.children|)
    && EntryAt(chain.written, 0) == DirectoryEntry(DOT, ATTR_DIRECTORY, EntryCluster(e), 0)
    && EntryAt(chain.written, 1) == DirectoryEntry(DOT_DOT, ATTR_DIRECTORY, 0, 0)
  }

  ghost predicate DirectoriesListed(per: nat, chains: map<nat, Chain>, dir: seq<byte>, at: nat,
                                    directories: seq<Directory>) {
    && ENTRY * (at + |directories|) <= |dir|
    && forall j | 0 <= j < |directories| :: DirectoryListed(per, chains, EntryAt(dir, at + j), directories[j])
  }

  /** Chains that have been written to stay as they are. */
  ghost predicate Grows(before: map<nat, Chain>, after: map<nat, Chain>) {
    forall f | f in before && before[f].written != [] :: f in after && after[f] == before[f]
  }

  lemma {:induction false} FilesListedGrow(before: map<nat, Chain>, after: map<nat, Chain>, dir: seq<byte>,
                        more: seq<byte>,
                        at: nat, files: seq<File>)
    requires FilesListed(before, dir, at, files) && Grows(before, after)
    ensures FilesListed(after, dir + more, at, files)
  {
    hide EntryCluster, EntrySize, EntryName;
    forall i | 0 <= i < |files|
      ensures Listed(after, EntryAt(dir + more, at + i), files[i])
    {
      assert EntryAt(dir + more, at + i) == EntryAt(dir, at + i);
      assert Listed(before, EntryAt(dir, at + i), files[i]);
    }
  }

  lemma {:induction false} FileAppended(chains: map<nat, Chain>, dir: seq<byte>, at: nat, files: seq<File>,
                        e: seq<byte>, f: File)
    requires FilesListed(chains, dir, at, files) && |dir| == ENTRY * (at + |files|) && Listed(chains, e, f)
    ensures FilesListed(chains, dir + e, at, files + [f])
  {
    hide Listed;
    assert |e| == ENTRY by { ListedSize(chains, e, f); }
    forall i | 0 <= i < |files| + 1
      ensures Listed(chains, EntryAt(dir + e, at + i), (files + [f])[i])
    {
      if i < |files| {
        assert EntryAt(dir + e, at + i) == EntryAt(dir, at + i);
        assert Listed(chains, EntryAt(dir, at + i), files[i]);
      } else {
        assert EntryAt(dir + e, at + i) == e;
      }
    }
  }

  lemma {:induction false} ListedSize(chains: map<nat, Chain>, e: seq<byte>, f: File)
    requires Listed(chains, e, f)
    ensures |e| == ENTRY
  {
  }

  lemma {:induction false} DirectoriesListedGrow(per: nat, before: map<nat, Chain>, after: map<nat, Chain>,
                        dir: seq<byte>,
                              more: seq<byte>, at: nat, directories: seq<Directory>)
    requires DirectoriesListed(per, before, dir, at, directories) && Grows(before, after)
    ensures DirectoriesListed(per, after, dir + more, at, directories)
  {
    hide EntryCluster, EntrySize, EntryName, FilesListed, DirectoryEntry, EndsAfter;
    forall j | 0 <= j < |directories|
      ensures DirectoryListed(per, after, EntryAt(dir + more, at + j), directories[j])
    {
      var e := EntryAt(dir, at + j);
      assert EntryAt(dir + more, at + j) == e && DirectoryListed(per, before, e, directories[j]);
      var body := before[EntryCluster(e)].written;
      FilesListedGrow(before, after, body, [], 2, directories[j].children);
      assert body + [] == body;
    }
  }

  lemma {:induction false} DirectoryAppended(per: nat, chains: map<nat, Chain>, dir: seq<byte>, at: nat,
                          directories: seq<Directory>, e: seq<byte>, d: Directory)
    requires DirectoriesListed(per, chains, dir, at, directories) && |dir| == ENTRY * (at + |directories|)
    requires DirectoryListed(per, chains, e, d) && |e| == ENTRY
    ensures DirectoriesListed(per, chains, dir + e, at, directories + [d])
  {
    hide DirectoryListed;
    forall j | 0 <= j < |directories| + 1
      ensures DirectoryListed(per, chains, EntryAt(dir + e, at + j), (directories + [d])[j])
    {
      if j < |directories| {
        assert EntryAt(dir + e, at + j) == EntryAt(dir, at + j);
      } else {
        assert EntryAt(dir + e, at + j) == e;
      }
    }
  }

  // ----- From the builder's chains to the reader -----

  /** The mounted volume agrees with the builder's FAT and data. */
  ghost predicate Agrees(m: Mounted, per: nat, fat: seq<nat>, data: seq<byte>) {
    m.per == per && m.data == data && |fat| <= |m.fat| && m.fat[..|fat|] == fat
  }

  lemma {:induction false} ChainAgrees(m: Mounted, per: nat, fat: seq<nat>, data: seq<byte>, nextFree: nat,
                    chains: map<nat, Chain>, f: nat)
    requires Agrees(m, per, fat, data) && Sound(per, fat, data, nextFree, chains) && f in chains
    ensures ChainIn(m.fat, f, chains[f].count) && Holds(m.per, m.data, f, chains[f])
  {
    hide Holds;
    var n := chains[f].count;
    assert ChainIn(fat, f, n);
    assert forall c | 0 <= c < |fat| :: m.fat[c] == m.fat[..|fat|][c] == fat[c];
  }

  lemma {:induction false} FileIsRead(m: Mounted, per: nat, fat: seq<nat>, data: seq<byte>, nextFree: nat,
                   chains: map<nat, Chain>, e: seq<byte>, f: File)
    requires Agrees(m, per, fat, data) && Sound(per, fat, data, nextFree, chains) && Listed(chains, e, f)
    ensures FileRead(m, e, f)
  {
    hide EntryCluster, EntrySize, EntryName, Sound, Follow, ReadClusters;
    if f.payload != [] {
      var first := EntryCluster(e);
      ChainAgrees(m, per, fat, data, nextFree, chains, first);
      ReadsBack(m.per, m.fat, m.data, first, chains[first]);
    }
  }

  lemma {:induction false} FilesAreRead(m: Mounted, per: nat, fat: seq<nat>, data: seq<byte>, nextFree: nat,
                     chains: map<nat, Chain>, dir: seq<byte>, at: nat, files: seq<File>)
    requires Agrees(m, per, fat, data) && Sound(per, fat, data, nextFree, chains)
    requires FilesListed(chains, dir, at, files)
    ensures FilesRead(m, dir, at, files)
  {
    hide Agrees, Sound, Listed, FileRead;
    forall i | 0 <= i < |files|
      ensures FileRead(m, EntryAt(dir, at + i), files[i])
    {
      FileIsRead(m, per, fat, data, nextFree, chains, EntryAt(dir, at + i), files[i]);
    }
  }

  /** A chain of one cluster, written in full, is the directory the reader sees. */
  lemma {:induction false} DirectoryBytesRead(m: Mounted, per: nat, fat: seq<nat>, data: seq<byte>, nextFree: nat,
                           chains: map<nat, Chain>, first: nat)
    requires Agrees(m, per, fat, data) && Sound(per, fat, data, nextFree, chains)
    requires first in chains && chains[first].count == 1 && |chains[first].written| == per
    ensures ReadDirectory(m, first) == Some(chains[first].written)
  {
    hide Sound, Span, Follow, ReadClusters;
    ChainAgrees(m, per, fat, data, nextFree, chains, first);
    SpanAdd(per, 0, 0);
    FollowFinds(m.fat, first, 1, |m.fat|);
    ReadsRun(per, m.data, first, 1);
  }

  lemma {:induction false} DirectoriesAreRead(m: Mounted, per: nat, fat: seq<nat>, data: seq<byte>, nextFree: nat,
                           chains: map<nat, Chain>, dir: seq<byte>, at: nat, directories: seq<Directory>)
    requires Agrees(m, per, fat, data) && Sound(per, fat, data, nextFree, chains)
    requires DirectoriesListed(per, chains, dir, at, directories)
    ensures DirectoriesRead(m, dir, at, directories)
  {
    hide Agrees, Sound, FilesListed, FilesRead, EntryCluster, EntryName, ReadDirectory, DirectoryEntry, EndsAfter;
    forall j | 0 <= j < |directories|
      ensures DirectoryRead(m, EntryAt(dir, at + j), directories[j])
    {
      var e := EntryAt(dir, at + j);
      assert DirectoryListed(per, chains, e, directories[j]);
      DirectoryBytesRead(m, per, fat, data, nextFree, chains, EntryCluster(e));
      FilesAreRead(m, per, fat, data, nextFree, chains, chains[EntryCluster(e)].written, 2,
                   directories[j].children);
    }
  }

  // ----- What a build takes -----

  function FileClusters(per: nat, f: File): nat
    requires per > 0
  {
    if f.payload == [] then 0 else Needed(per, |f.payload|)
  }

  function FilesClusters(per: nat, files: seq<File>): nat
    requires per > 0
  {
    if files == [] then 0
    else FilesClusters(per, files[..|files| - 1]) + FileClusters(per, files[|files| - 1])
  }

  function DirectoriesClusters(per: nat, directories: seq<Directory>): nat
    requires per > 0
  {
    if directories == [] then 0
    else
      DirectoriesClusters(per, directories[..|directories| - 1]) + 1 +
      FilesClusters(per, directories[|directories| - 1].children)
  }

  /** Sizes that fit the 32-bit field of an entry. */
  predicate SizesFit(files: seq<File>) {
    forall i | 0 <= i < |files| :: |files[i].payload| < 0x1_0000_0000
  }

  /** A subdirectory keeps all its entries in one cluster. */
  predicate DirectoryFits(per: nat, d: Directory) {
    SizesFit(d.children) && ENTRY * (2 + |d.children|) <= per
  }

  lemma {:induction false} FilesClustersGrow(per: nat, files: seq<File>, k: nat)
    requires per > 0 && k <= |files|
    ensures FilesClusters(per, files[..k]) <= FilesClusters(per, files)
  {
    hide Needed;
    if k == |files| {
      assert files[..k] == files;
    } else {
      FilesClustersGrow(per, files[..|files| - 1], k);
      assert files[..|files| - 1][..k] == files[..k];
    }
  }

  lemma {:induction false} FilesClustersStep(per: nat, files: seq<File>, k: nat)
    requires per > 0 && k < |files|
    ensures FilesClusters(per, files[..k + 1]) == FilesClusters(per, files[..k]) + FileClusters(per, files[k])
    ensures FilesClusters(per, files[..k + 1]) <= FilesClusters(per, files)
  {
    assert files[..k + 1][..k] == files[..k];
    FilesClustersGrow(per, files, k + 1);
  }

  lemma {:induction false} DirectoriesClustersGrow(per: nat, directories: seq<Directory>, k: nat)
    requires per > 0 && k <= |directories|
    ensures DirectoriesClusters(per, directories[..k]) <= DirectoriesClusters(per, directories)
  {
    hide FilesClusters;
    if k == |directories| {
      assert directories[..k] == directories;
    } else {
      DirectoriesClustersGrow(per, directories[..|directories| - 1], k);
      assert directories[..|directories| - 1][..k] == directories[..k];
    }
  }

  lemma {:induction false} DirectoriesClustersStep(per: nat, directories: seq<Directory>, k: nat)
    requires per > 0 && k < |directories|
    ensures DirectoriesClusters(per, directories[..k + 1]) ==
            DirectoriesClusters(per, directories[..k]) + 1 + FilesClusters(per, directories[k].children)
    ensures DirectoriesClusters(per, directories[..k + 1]) <= DirectoriesClusters(per, directories)
  {
    assert directories[..k + 1][..k] == directories[..k];
    DirectoriesClustersGrow(per, directories, k + 1);
  }

  /** Exactly when a volume can be built. */
  predicate Buildable(sizeMib: nat, perCluster: nat, files: seq<File>, directories: seq<Directory>, allowSmall: bool)
    requires perCluster > 0
  {
    var per := perCluster * SECTOR;
    var clusters := Estimate(sizeMib * 2048, perCluster, 4);
    && clusters >= (if allowSmall then 0 else MIN_CLUSTERS)
    && sizeMib * 2048 < 0x1_0000_0000 && perCluster < 256
    && 1 + DirectoriesClusters(per, directories) + FilesClusters(per, files) <= clusters
    && SizesFit(files) && (forall j | 0 <= j < |directories| :: DirectoryFits(per, directories[j]))
    && ENTRY * (1 + |directories| + |files|) <= per
  }

  // ----- The builder -----

  /** A body padded with zeros to one cluster, as `ljust` pads it: never cut. */
  function Padded(body: seq<byte>, per: nat): (s: seq<byte>)
    ensures |s| == if |body| < per then per else |body|
    ensures s[..|body|] == body && forall i | |body| <= i < |s| :: s[i] == 0
  {
    body + Zeros(if |body| < per then per - |body| else 0)
  }

  /** Claim clusters for a file, write them, and give its entry. */
  method AddFile(volume: Volume, f: File) returns (r: Result<seq<byte>, BuildError>)
    requires volume.Valid()
    modifies volume
    ensures r.Ok? <==> |f.payload| < 0x1_0000_0000 &&
                       old(volume.nextFree) + FileClusters(volume.Per(), f) <= volume.clusters + 2
    ensures r.Ok? ==> volume.nextFree == old(volume.nextFree) + FileClusters(volume.Per(), f)
    ensures r.Ok? ==> volume.Valid() && |r.value| == ENTRY && Listed(volume.chains, r.value, f)
    ensures r.Ok? ==> forall c | c in old(volume.chains) ::
                        c in volume.chains && volume.chains[c] == old(volume.chains)[c]
  {
    hide Span, Low, EntryCluster, EntrySize, EntryName, Sound, Needed;
    var cluster := 0;
    if f.payload != [] {
      var claimed := volume.Allocate(|f.payload|);
      if claimed.Err? {
        return Err(VolumeIsFull);
      }
      cluster := claimed.value;
      var ok := volume.WriteClusterChain(cluster, f.payload);
      assert ok && cluster < volume.nextFree;
    }
    NextIsSmall(volume);
    if |f.payload| >= 0x1_0000_0000 {
      return Err(FieldOverflows);
    }
    EntryReads(f.name, ATTR_FILE, cluster, |f.payload|);
    return Ok(DirectoryEntry(f.name, ATTR_FILE, cluster, |f.payload|));
  }

  /** Add files one after another to the body of a directory. */
  method AddFiles(volume: Volume, start: seq<byte>, ghost at: nat, files: seq<File>)
    returns (r: Result<seq<byte>, BuildError>)
    requires volume.Valid() && |start| == ENTRY * at
    modifies volume
    ensures r.Ok? <==> SizesFit(files) &&
                       old(volume.nextFree) + FilesClusters(volume.Per(), files) <= volume.clusters + 2
    ensures r.Ok? ==> volume.nextFree == old(volume.nextFree) + FilesClusters(volume.Per(), files)
    ensures r.Ok? ==> volume.Valid() && FilesListed(volume.chains, r.value, at, files)
    ensures r.Ok? ==> |r.value| == ENTRY * (at + |files|) && r.value[..ENTRY * at] == start
    ensures r.Ok? ==> forall c | c in old(volume.chains) ::
                        c in volume.chains && volume.chains[c] == old(volume.chains)[c]
  {
    hide Span, FilesListed, Listed, Sound, FilesClusters, FileClusters;
    var body := start;
    ghost var per := volume.Per();
    NoClusters(per, files[..0]);
    NextIsSmall(volume);
    NoFilesListed(volume.chains, body, at);
    for k := 0 to |files|
      invariant volume.Valid() && |body| == ENTRY * (at + k) && body[..ENTRY * at] == start
      invariant FilesListed(volume.chains, body, at, files[..k])
      invariant forall c | c in old(volume.chains) ::
                  c in volume.chains && volume.chains[c] == old(volume.chains)[c]
      invariant volume.nextFree == old(volume.nextFree) + FilesClusters(per, files[..k])
      invariant volume.nextFree <= volume.clusters + 2 && SizesFit(files[..k])
    {
      ghost var before := volume.chains;
      FilesClustersStep(per, files, k);
      var added := AddFile(volume, files[k]);
      if added.Err? {
        return Err(added.error);
      }
      FilesListedGrow(before, volume.chains, body, [], at, files[..k]);
      assert body + [] == body;
      FileAppended(volume.chains, body, at, files[..k], added.value, files[k]);
      assert files[..k] + [files[k]] == files[..k + 1];
      body := body + added.value;
    }
    assert files[..|files|] == files;
    return Ok(body);
  }

  /** A subdirectory: its two dot entries, its files, and its own entry in the root. */
  method AddDirectory(volume: Volume, d: Directory, ghost root: nat) returns (r: Result<seq<byte>, BuildError>)
    requires volume.Valid() && root in volume.chains && volume.chains[root] == Chain(1, [])
    modifies volume
    ensures r.Ok? <==> DirectoryFits(volume.Per(), d) &&
                       old(volume.nextFree) + 1 + FilesClusters(volume.Per(), d.children) <= volume.clusters + 2
    ensures r.Ok? ==> volume.nextFree == old(volume.nextFree) + 1 + FilesClusters(volume.Per(), d.children)
    ensures r.Ok? ==> volume.Valid() && |r.value| == ENTRY
    ensures r.Ok? ==> DirectoryListed(volume.Per(), volume.chains, r.value, d)
    ensures r.Ok? ==> Grows(old(volume.chains), volume.chains)
    ensures r.Ok? ==> root in volume.chains && volume.chains[root] == Chain(1, [])
  {
    hide Span, Low, EntryCluster, EntrySize, EntryName, FilesListed, Listed, Sound, EntryAt, Needed, FilesClusters;
    NeedsOne(volume);
    var claimed := volume.Allocate(1);
    if claimed.Err? {
      return Err(VolumeIsFull);
    }
    var cluster := claimed.value;
    NextIsSmall(volume);
    EntryReads(d.name, ATTR_DIRECTORY, cluster, 0);
    var dot := DirectoryEntry(DOT, ATTR_DIRECTORY, cluster, 0);
    var dotDot := DirectoryEntry(DOT_DOT, ATTR_DIRECTORY, 0, 0);
    hide DirectoryEntry;
    var filled := AddFiles(volume, dot + dotDot, 2, d.children);
    if filled.Err? {
      return Err(filled.error);
    }
    var body := filled.value;
    ghost var before := volume.chains;
    var per := volume.Per();
    var padded := Padded(body, per);
    var ok := volume.WriteClusterChain(cluster, padded);
    SpanAdd(per, 0, 0);
    if !ok {
      return Err(DirectoryExceedsCluster);
    }
    FilesPadded(before, volume.chains, body, padded, 2, d.children);
    DotsFirst(body, padded, dot, dotDot);
    return Ok(DirectoryEntry(d.name, ATTR_DIRECTORY, cluster, 0));
  }

  lemma {:induction false} DotsFirst(body: seq<byte>, padded: seq<byte>, dot: seq<byte>, dotDot: seq<byte>)
    requires |dot| == ENTRY && |dotDot| == ENTRY && |body| <= |padded| && padded[..|body|] == body
    requires 2 * ENTRY <= |body| && body[..2 * ENTRY] == dot + dotDot
    ensures EntryAt(padded, 0) == dot && EntryAt(padded, 1) == dotDot
  {
    assert forall i | 0 <= i < 2 * ENTRY :: padded[i] == padded[..|body|][i] == body[..2 * ENTRY][i];
  }

  lemma {:induction false} FilesPadded(before: map<nat, Chain>, after: map<nat, Chain>, body: seq<byte>,
                        padded: seq<byte>, at: nat, files: seq<File>)
    requires FilesListed(before, body, at, files) && Grows(before, after)
    requires |body| <= |padded| && padded[..|body|] == body
    ensures FilesListed(after, padded, at, files)
  {
    hide FilesListed;
    FilesListedGrow(before, after, body, padded[|body|..], at, files);
    assert padded == body + padded[|body|..];
  }

  /** A request for one byte takes one cluster. */
  lemma {:induction false} NeedsOne(volume: Volume)
    requires volume.sectorsPerCluster > 0
    ensures Needed(volume.Per(), 1) == 1
  {
    var per := volume.Per();
    Quotient(1 + per - 1, per, 1);
  }

  lemma {:induction false} NoClusters(per: nat, files: seq<File>)
    requires per > 0 && files == []
    ensures FilesClusters(per, files) == 0
  {
  }

  lemma {:induction false} NextIsSmall(volume: Volume)
    requires volume.Valid()
    ensures 2 <= volume.nextFree <= volume.clusters + 2 <= LAST_CLUSTER + 1
  {
  }

  lemma {:induction false} NoFilesListed(chains: map<nat, Chain>, dir: seq<byte>, at: nat)
    requires ENTRY * at <= |dir|
    ensures FilesListed(chains, dir, at, [])
  {
  }

  /** The bytes of one FAT, packed entry by entry into zeroed sectors. */
  method Table(fat: seq<nat>, fatSectors: nat) returns (table: seq<byte>)
    requires |fat| <= fatSectors * 128
    ensures table == TableBytes(fat, fatSectors)
  {
    hide Low;
    table := Zeros(fatSectors * SECTOR);
    for index := 0 to |fat|
      invariant |table| == fatSectors * SECTOR
      invariant forall i | 0 <= i < |table| :: table[i] == if i < 4 * index then Low(fat[i / 4], i % 4) else 0
    {
      var value := fat[index];
      var packed := [Low(value, 0), Low(value, 1), Low(value, 2), Low(value, 3)];
      table := table[..4 * index] + packed + table[4 * index + 4..];
    }
  }

  function HeaderOf(volume: Volume, root: nat, volumeLabel: ShortName): Header
    requires volume.Valid()
    reads volume
  {
    Header(volume.sectors, volume.sectorsPerCluster, volume.fatSectors, root, volumeLabel,
           volume.clusters - (volume.nextFree - 2), volume.nextFree)
  }

  /** The whole image, unless a number does not fit the field it is packed into. */
  method Image(volume: Volume, root: nat, volumeLabel: ShortName) returns (r: Result<seq<byte>, BuildError>)
    requires volume.Valid()
    ensures var h := HeaderOf(volume, root, volumeLabel);
            r == if Packable(h) then Ok(ImageBytes(h, volume.fat, volume.data)) else Err(FieldOverflows)
  {
    var h := HeaderOf(volume, root, volumeLabel);
    if !Packable(h) {
      return Err(FieldOverflows);
    }
    var out := ReservedBytes(h);
    var table := Table(volume.fat, volume.fatSectors);
    return Ok(out + table + table + volume.data);
  }

  /** FSInfo gives the number of free entries of the FAT, and where the first of them is. */
  ghost predicate FreeCountTrue(image: seq<byte>, clusters: nat) {
    match Mount(image)
    case None => false
    case Some(m) =>
      && clusters + 2 <= |m.fat| && m.freeClusters == FreeEntries(m.fat[..clusters + 2], 2)
      && 2 <= m.nextFree <= clusters + 2 && m.fat[0] == 0x0FFFFFF8 && m.fat[1] == 0x0FFFFFFF
      && (forall c | 2 <= c < clusters + 2 :: m.fat[c] == 0 <==> m.nextFree <= c)
  }

  /** The boot sector declares this many sectors. */
  ghost predicate Declares(image: seq<byte>, sectors: nat) {
    Mount(image).Some? && Mount(image).value.sectors == sectors
  }

  /** Bytes of the whole image. */
  function ImageSize(fatSectors: nat, clusters: nat, perCluster: nat): nat {
    (RESERVED + 2 * fatSectors + clusters * perCluster) * SECTOR
  }

  /** Add subdirectories one after another to the body of the root. */
  method AddDirectories(volume: Volume, start: seq<byte>, ghost at: nat, directories: seq<Directory>, ghost root: nat)
    returns (r: Result<seq<byte>, BuildError>)
    requires volume.Valid() && |start| == ENTRY * at
    requires root in volume.chains && volume.chains[root] == Chain(1, [])
    modifies volume
    ensures r.Ok? <==> (forall j | 0 <= j < |directories| :: DirectoryFits(volume.Per(), directories[j])) &&
                       old(volume.nextFree) + DirectoriesClusters(volume.Per(), directories) <= volume.clusters + 2
    ensures r.Ok? ==> volume.nextFree == old(volume.nextFree) + DirectoriesClusters(volume.Per(), directories)
    ensures r.Ok? ==> volume.Valid() && |r.value| == ENTRY * (at + |directories|) && r.value[..ENTRY * at] == start
    ensures r.Ok? ==> DirectoriesListed(volume.Per(), volume.chains, r.value, at, directories)
    ensures r.Ok? ==> root in volume.chains && volume.chains[root] == Chain(1, [])
  {
    hide Span, DirectoriesListed, DirectoryListed, Sound, FilesClusters, DirectoryFits;
    var body := start;
    NextIsSmall(volume);
    ghost var per := volume.Per();
    NoDirectoriesListed(per, volume.chains, body, at);
    for j := 0 to |directories|
      invariant volume.Valid() && |body| == ENTRY * (at + j) && body[..ENTRY * at] == start
      invariant root in volume.chains && volume.chains[root] == Chain(1, [])
      invariant DirectoriesListed(per, volume.chains, body, at, directories[..j])
      invariant volume.nextFree == old(volume.nextFree) + DirectoriesClusters(per, directories[..j])
      invariant volume.nextFree <= volume.clusters + 2
      invariant forall i | 0 <= i < j :: DirectoryFits(per, directories[i])
    {
      DirectoriesClustersStep(per, directories, j);
      ghost var before := volume.chains;
      var added := AddDirectory(volume, directories[j], root);
      if added.Err? {
        return Err(added.error);
      }
      DirectoriesListedGrow(per, before, volume.chains, body, [], at, directories[..j]);
      assert body + [] == body;
      DirectoryAppended(per, volume.chains, body, at, directories[..j], added.value, directories[j]);
      assert directories[..j] + [directories[j]] == directories[..j + 1];
      body := body + added.value;
    }
    assert directories[..|directories|] == directories;
    return Ok(body);
  }

  method Build(sizeMib: nat, perCluster: nat, volumeLabel: ShortName, files: seq<File>,
               directories: seq<Directory>, allowSmall: bool) returns (r: Result<seq<byte>, BuildError>)
    requires perCluster > 0
    requires Estimate(sizeMib * 2048, perCluster, 4) < LAST_CLUSTER
    ensures r.Ok? <==> Buildable(sizeMib, perCluster, files, directories, allowSmall)
    ensures r.Ok? ==> Readable(r.value, volumeLabel, files, directories)
    ensures r.Ok? ==> Estimate(sizeMib * 2048, perCluster, 4) >= 0 &&
                      FreeCountTrue(r.value, Estimate(sizeMib * 2048, perCluster, 4))
    ensures r.Ok? ==> Declares(r.value, sizeMib * 2048)
    ensures r.Ok? ==> (|r.value| <= sizeMib * 2048 * 512 <==> Fits(sizeMib * 2048, perCluster))
    ensures r.Ok? && FitsTightly(sizeMib * 2048, perCluster) ==>
              sizeMib * 2048 * 512 < |r.value| + perCluster * 512
  {
    hide Estimate, Fits, FitsTightly, ImageSize, Declares, Span, DirectoriesListed, Readable, FreeCountTrue,
         DirectoryEntry, Sound, FilesClusters, DirectoriesClusters, DirectoryFits, Needed;
    var sectors := sizeMib * 2048;
    var solved := Solve(sectors, perCluster, allowSmall);
    if solved.Err? {
      return Err(BadGeometry(solved.error));
    }
    var volume := new Volume(sectors, perCluster, solved.value);
    NeedsOne(volume);
    var claimed := volume.Allocate(1);
    if claimed.Err? {
      return Err(VolumeIsFull);
    }
    var root := claimed.value;
    var entries := DirectoryEntry(volumeLabel, ATTR_VOLUME_ID, 0, 0);
    var listed := AddDirectories(volume, entries, 1, directories, root);
    if listed.Err? {
      return Err(listed.error);
    }
    r := Finish(volume, root, volumeLabel, listed.value, files, directories);
    SizeFits(sectors, perCluster);
  }

  /** The image is no longer than it declares exactly when the geometry fits. */
  lemma {:induction false} SizeFits(sectors: nat, perCluster: nat)
    requires perCluster > 0 && Estimate(sectors, perCluster, 4) >= 0
    ensures var clusters := Estimate(sectors, perCluster, 4);
            var size := ImageSize(FatFor(clusters), clusters, perCluster);
            && (size <= sectors * 512 <==> Fits(sectors, perCluster))
            && (FitsTightly(sectors, perCluster) ==> sectors * 512 < size + perCluster * 512)
  {
    hide Estimate, FatFor;
  }

  /** The root's files, its own cluster, and the image. */
  method Finish(volume: Volume, root: nat, volumeLabel: ShortName, listed: seq<byte>, files: seq<File>,
                ghost directories: seq<Directory>) returns (r: Result<seq<byte>, BuildError>)
    requires volume.Valid() && |listed| == ENTRY * (1 + |directories|)
    requires root in volume.chains && volume.chains[root] == Chain(1, [])
    requires DirectoriesListed(volume.Per(), volume.chains, listed, 1, directories)
    requires listed[..ENTRY] == DirectoryEntry(volumeLabel, ATTR_VOLUME_ID, 0, 0)
    requires root <= LAST_CLUSTER && volume.fatSectors < 0x1_0000_0000
    modifies volume
    ensures r.Ok? <==>
            && SizesFit(files) && ENTRY * (1 + |directories| + |files|) <= volume.Per()
            && old(volume.nextFree) + FilesClusters(volume.Per(), files) <= volume.clusters + 2
            && volume.sectors < 0x1_0000_0000 && volume.sectorsPerCluster < 256
    ensures r.Ok? ==> Readable(r.value, volumeLabel, files, directories) && FreeCountTrue(r.value, volume.clusters)
    ensures r.Ok? ==> Declares(r.value, volume.sectors)
    ensures r.Ok? ==> |r.value| == ImageSize(volume.fatSectors, volume.clusters, volume.sectorsPerCluster)
  {
    hide Span, FilesListed, DirectoriesListed, Readable, FreeCountTrue, Sound, FilesClusters, DirectoryEntry, ImageSize,
         Declares;
    NextIsSmall(volume);
    ghost var before := volume.chains;
    var filled := AddFiles(volume, listed, 1 + |directories|, files);
    if filled.Err? {
      return Err(filled.error);
    }
    var entries := filled.value;
    var per := volume.Per();
    if |entries| > per {
      return Err(DirectoryExceedsCluster);
    }
    ghost var all := volume.chains;
    var padded := Padded(entries, per);
    SpanAdd(per, 0, 0);
    var ok := volume.WriteClusterChain(root, padded);
    LabelFirst(listed, entries, padded);
    FilesPadded(all, volume.chains, entries, padded, 1 + |directories|, files);
    DirectoriesPadded(per, before, volume.chains, listed, padded, 1, directories);
    NextIsSmall(volume);
    r := Image(volume, root, volumeLabel);
    if r.Ok? {
      ImageIsReadable(volume, root, volumeLabel, files, directories);
    }
  }

  lemma {:induction false} LabelFirst(listed: seq<byte>, entries: seq<byte>, padded: seq<byte>)
    requires ENTRY <= |listed| <= |entries| <= |padded|
    requires entries[..|listed|] == listed && padded[..|entries|] == entries
    ensures EntryAt(padded, 0) == listed[..ENTRY]
  {
    assert forall i | 0 <= i < ENTRY :: padded[i] == padded[..|entries|][i] == entries[..|listed|][i];
  }

  lemma {:induction false} DirectoriesPadded(per: nat, before: map<nat, Chain>, after: map<nat, Chain>, body: seq<byte>,
                          padded: seq<byte>, at: nat, directories: seq<Directory>)
    requires DirectoriesListed(per, before, body, at, directories) && Grows(before, after)
    requires |body| <= |padded| && padded[..|body|] == body
    ensures DirectoriesListed(per, after, padded, at, directories)
  {
    hide DirectoriesListed;
    DirectoriesListedGrow(per, before, after, body, padded[|body|..], at, directories);
    assert padded == body + padded[|body|..];
  }

  lemma {:induction false} NoDirectoriesListed(per: nat, chains: map<nat, Chain>, dir: seq<byte>, at: nat)
    requires ENTRY * at <= |dir|
    ensures DirectoriesListed(per, chains, dir, at, [])
  {
  }

  lemma {:induction false} ImageIsReadable(volume: Volume, root: nat, volumeLabel: ShortName, files: seq<File>,
                        directories: seq<Directory>)
    requires volume.Valid() && Packable(HeaderOf(volume, root, volumeLabel))
    requires root in volume.chains && volume.chains[root].count == 1
    requires var dir := volume.chains[root].written;
             && |dir| == volume.Per() && EndsAfter(dir, 1 + |directories| + |files|)
             && |dir| >= ENTRY && EntryAt(dir, 0) == DirectoryEntry(volumeLabel, ATTR_VOLUME_ID, 0, 0)
             && DirectoriesListed(volume.Per(), volume.chains, dir, 1, directories)
             && FilesListed(volume.chains, dir, 1 + |directories|, files)
    ensures var image := ImageBytes(HeaderOf(volume, root, volumeLabel), volume.fat, volume.data);
            && Readable(image, volumeLabel, files, directories) && FreeCountTrue(image, volume.clusters)
            && Declares(image, volume.sectors)
            && |image| == ImageSize(volume.fatSectors, volume.clusters, volume.sectorsPerCluster)
  {
    hide Span, FilesListed, DirectoriesListed, DirectoriesRead, FilesRead, ReadDirectory, ImageBytes, U32,
         EndsAfter, Mount, FreeEntries, EntryAt, DirectoryEntry;
    var h := HeaderOf(volume, root, volumeLabel);
    var per, fat, data := volume.Per(), volume.fat, volume.data;
    var chains, next := volume.chains, volume.nextFree;
    EntriesSmall(per, fat, data, next, chains);
    MountFinds(h, fat, data);
    var m := Mount(ImageBytes(h, fat, data)).value;
    FreeCount(fat, next, 2);
    DataSize(volume);
    assert forall c | 0 <= c < |fat| :: m.fat[c] == fat[c];
    hide Sound;
    assert Agrees(m, per, fat, data);
    DirectoryBytesRead(m, per, fat, data, next, chains, root);
    FilesAreRead(m, per, fat, data, next, chains, chains[root].written, 1 + |directories|, files);
    DirectoriesAreRead(m, per, fat, data, next, chains, chains[root].written, 1, directories);
  }

  lemma {:induction false} DataSize(volume: Volume)
    requires volume.Valid()
    ensures |volume.data| == volume.clusters * volume.sectorsPerCluster * SECTOR
  {
  }

  /** Every entry of the FAT fits its 28 bits. */
  lemma {:induction false} EntriesSmall(per: nat, fat: seq<nat>, data: seq<byte>, nextFree: nat,
                        chains: map<nat, Chain>)
    requires Sound(per, fat, data, nextFree, chains)
    ensures forall v | v in fat :: v < 0x1000_0000
  {
  }
}
