/**
  * Names on a FAT32 volume: how scripts/mkfat32.py encodes one, and how a reader looks one up in
  * the directories of a finished image.
  */
module Fat32Name {
  import opened Bytes
  import opened Fat32Image
  import opened Fat32Build

  // ----- Encoding -----

  datatype NameError = NotEightThree | BadCharacters

  /** What comes before the first dot and what comes after it. */
  function Partition(s: string): (string, string) {
    if s == [] then ([], [])
    else if s[0] == '.' then ([], s[1..])
    else ([s[0]] + Partition(s[1..]).0, Partition(s[1..]).1)
  }

  predicate AllowedCharacter(c: char) {
    || 'A' <= c <= 'Z' || '0' <= c <= '9'
    || c in {'_', '-', '~', '!', '#', '$', '%', '&', '(', ')', '@', '^', '{', '}'}
  }

  predicate Allowed(s: string) {
    forall k | 0 <= k < |s| :: AllowedCharacter(s[k])
  }

  /** The fifty characters that a name may hold. */
  lemma {:induction false} AlphabetIs(c: char)
    ensures AllowedCharacter(c) <==>
            || c in {'A', 'B', 'C', 'D', 'E', 'F', 'G', 'H', 'I', 'J', 'K', 'L', 'M'}
            || c in {'N', 'O', 'P', 'Q', 'R', 'S', 'T', 'U', 'V', 'W', 'X', 'Y', 'Z'}
            || c in {'0', '1', '2', '3', '4', '5', '6', '7', '8', '9'}
            || c in {'_', '-', '~', '!', '#', '$', '%', '&', '(', ')', '@', '^', '{', '}'}
  {
  }

  lemma {:induction false} AllowedIsAscii(s: string)
    requires Allowed(s)
    ensures forall k | 0 <= k < |s| :: ' ' < s[k] < '\U{7F}' && s[k] != '.'
  {
  }

  /** The characters of an ASCII text as bytes, filled up with spaces. */
  function Filled(s: string, n: nat): (r: seq<byte>)
    requires |s| <= n && forall k | 0 <= k < |s| :: s[k] < '\U{80}'
    ensures |r| == n
  {
    seq(n, i requires 0 <= i < n => if i < |s| then s[i] as int else 0x20)
  }

  /** `upper` is the language's conversion to upper case. */
  function ShortNameOf(upper: string -> string, name: string): Result<ShortName, NameError> {
    if name == "." then Ok(DOT)
    else if name == ".." then Ok(DOT_DOT)
    else
      var (stem, ext) := Partition(upper(name));
      if stem == [] || |stem| > 8 || |ext| > 3 then Err(NotEightThree)
      else if !Allowed(stem) || !Allowed(ext) then Err(BadCharacters)
      else
        AllowedIsAscii(stem);
        AllowedIsAscii(ext);
        Ok(Filled(stem, 8) + Filled(ext, 3))
  }

  /** An encoded name never marks the end of a directory or a deleted entry, nor is it a dot name by accident. */
  lemma {:induction false} ShortNameIsUsable(upper: string -> string, name: string)
    requires ShortNameOf(upper, name).Ok?
    ensures var s := ShortNameOf(upper, name).value;
            && s[0] != 0 && s[0] != DELETED
            && (s == DOT <==> name == ".") && (s == DOT_DOT <==> name == "..")
  {
    if name != "." && name != ".." {
      AllowedIsAscii(Partition(upper(name)).0);
    }
  }

  /** The eleven bytes: what stands before the first dot, what stands after it, and spaces. */
  lemma {:induction false} ShortNameReads(upper: string -> string, name: string)
    requires ShortNameOf(upper, name).Ok? && name != "." && name != ".."
    ensures var s := ShortNameOf(upper, name).value;
            var (stem, ext) := Partition(upper(name));
            && 1 <= |stem| <= 8 && |ext| <= 3
            && (forall k | 0 <= k < 8 :: s[k] as int == if k < |stem| then stem[k] as int else 32)
            && (forall k | 0 <= k < 3 :: s[8 + k] as int == if k < |ext| then ext[k] as int else 32)
    ensures var (stem, ext) := Partition(upper(name));
            && '.' !in stem
            && (upper(name) == stem + "." + ext || (upper(name) == stem && ext == ""))
  {
    PartitionSplits(upper(name));
  }

  lemma {:induction false} PartitionSplits(s: string)
    ensures var (stem, ext) := Partition(s);
            '.' !in stem && (s == stem + "." + ext || (s == stem && ext == ""))
  {
    if s != [] && s[0] != '.' {
      PartitionSplits(s[1..]);
      assert s == [s[0]] + s[1..];
    } else if s != [] {
      assert s == ['.'] + s[1..];
    }
  }

  /** The dot names are their dots and spaces. */
  lemma {:induction false} DotNames(upper: string -> string)
    ensures ShortNameOf(upper, ".") == Ok(Filled(".", 11)) && ShortNameOf(upper, "..") == Ok(Filled("..", 11))
  {
    assert DOT == Filled(".", 11) && DOT_DOT == Filled("..", 11);
  }

  lemma {:induction false} FilledReads(a: string, b: string, n: nat)
    requires |a| <= n && |b| <= n && Allowed(a) && Allowed(b)
    ensures forall k | 0 <= k < |a| :: a[k] < '\U{80}'
    ensures forall k | 0 <= k < |b| :: b[k] < '\U{80}'
    ensures Filled(a, n) == Filled(b, n) ==> a == b
  {
    AllowedIsAscii(a);
    AllowedIsAscii(b);
    var x, y := Filled(a, n), Filled(b, n);
    if |a| < |b| {
      assert x[|a|] != y[|a|];
    } else if |b| < |a| {
      assert x[|b|] != y[|b|];
    } else if x == y {
      assert forall k | 0 <= k < |a| :: a[k] as int == x[k] == y[k] == b[k] as int;
    }
  }

  /** Two names share an entry name if and only if their upper-case forms agree before and after the first dot. */
  lemma {:induction false} SameShortName(upper: string -> string, a: string, b: string)
    requires ShortNameOf(upper, a).Ok? && ShortNameOf(upper, b).Ok?
    requires a != "." && a != ".." && b != "." && b != ".."
    ensures ShortNameOf(upper, a) == ShortNameOf(upper, b) <==> Partition(upper(a)) == Partition(upper(b))
  {
    var (s, e) := Partition(upper(a));
    var (t, f) := Partition(upper(b));
    FilledReads(s, t, 8);
    FilledReads(e, f, 3);
    hide Filled;
    var x, y := ShortNameOf(upper, a).value, ShortNameOf(upper, b).value;
    if x == y {
      assert x[..8] == Filled(s, 8) && y[..8] == Filled(t, 8);
      assert x[8..] == Filled(e, 3) && y[8..] == Filled(f, 3);
    }
  }

  // ----- Looking up -----

  const DELETED: byte := 0xE5

  /** Deleted entries and the volume label are passed over. */
  predicate Shown(e: seq<byte>)
    requires |e| == ENTRY
  {
    e[0] != DELETED && e[11] / 8 % 2 == 0
  }

  /** The first shown entry of this name, from entry `k` on; a zero first byte ends the directory. */
  function Lookup(dir: seq<byte>, name: ShortName, k: nat): (r: Option<nat>)
    ensures r.Some? ==> k <= r.value && ENTRY * r.value + ENTRY <= |dir|
    decreases |dir| - ENTRY * k
  {
    if |dir| < ENTRY * k + ENTRY || EntryAt(dir, k)[0] == 0 then None
    else if Shown(EntryAt(dir, k)) && EntryName(EntryAt(dir, k)) == name then Some(k)
    else Lookup(dir, name, k + 1)
  }

  predicate EntryListed(dir: seq<byte>, k: nat, name: ShortName) {
    && ENTRY * k + ENTRY <= |dir|
    && var e := EntryAt(dir, k); e[0] != 0 && Shown(e) && EntryName(e) == name
  }

  predicate EntryPasses(dir: seq<byte>, k: nat, name: ShortName) {
    && ENTRY * k + ENTRY <= |dir|
    && var e := EntryAt(dir, k); e[0] != 0 && (!Shown(e) || EntryName(e) != name)
  }

  /** From entry `at` on the directory lists these names, and nothing after them. */
  ghost predicate Lists(dir: seq<byte>, at: nat, names: seq<ShortName>) {
    && ENTRY * (at + |names|) <= |dir| && EndsAfter(dir, at + |names|)
    && forall i | 0 <= i < |names| :: EntryListed(dir, at + i, names[i])
  }

  /** None of the first `n` entries ends the directory or has this name. */
  ghost predicate Passes(dir: seq<byte>, n: nat, name: ShortName) {
    forall k | 0 <= k < n :: EntryPasses(dir, k, name)
  }

  lemma {:induction false} LookupPasses(dir: seq<byte>, name: ShortName, k: nat, n: nat)
    requires k <= n && Passes(dir, n, name)
    ensures Lookup(dir, name, k) == Lookup(dir, name, n)
    decreases n - k
  {
    if k < n {
      assert EntryPasses(dir, k, name);
      LookupPasses(dir, name, k + 1, n);
    }
  }

  /** A listed name is found at its own entry, any other name not at all. */
  lemma {:induction false} LookupListed(dir: seq<byte>, at: nat, names: seq<ShortName>, name: ShortName)
    requires Lists(dir, at, names) && Passes(dir, at, name)
    requires forall i, j | 0 <= i < j < |names| :: names[i] != names[j]
    ensures forall i | 0 <= i < |names| && names[i] == name :: Lookup(dir, name, 0) == Some(at + i)
    ensures name !in names ==> Lookup(dir, name, 0) == None
  {
    LookupPasses(dir, name, 0, at);
    LookupFrom(dir, at, names, name, 0);
  }

  lemma {:induction false} LookupFrom(dir: seq<byte>, at: nat, names: seq<ShortName>, name: ShortName, i: nat)
    requires Lists(dir, at, names) && i <= |names|
    requires forall i, j | 0 <= i < j < |names| :: names[i] != names[j]
    ensures forall j | i <= j < |names| && names[j] == name :: Lookup(dir, name, at + i) == Some(at + j)
    ensures (forall j | i <= j < |names| :: names[j] != name) ==> Lookup(dir, name, at + i) == None
    decreases |names| - i
  {
    if i == |names| {
      if ENTRY * (at + i) + ENTRY <= |dir| {
        assert EntryAt(dir, at + i)[0] == dir[ENTRY * (at + i)] == 0;
      }
    } else {
      assert EntryListed(dir, at + i, names[i]);
      assert Lookup(dir, name, at + i) == if names[i] == name then Some(at + i) else Lookup(dir, name, at + (i + 1));
      LookupFrom(dir, at, names, name, i + 1);
    }
  }

  // ----- Every file under its name -----

  /** Names that a directory can tell apart. */
  predicate Nameable(names: seq<ShortName>) {
    && (forall i | 0 <= i < |names| ::
          names[i][0] != 0 && names[i][0] != DELETED && names[i] != DOT && names[i] != DOT_DOT)
    && (forall i, j | 0 <= i < j < |names| :: names[i] != names[j])
  }

  function FileNames(files: seq<File>): (s: seq<ShortName>)
    ensures |s| == |files|
  {
    seq(|files|, i requires 0 <= i < |files| => files[i].name)
  }

  function DirectoryNames(directories: seq<Directory>): (s: seq<ShortName>)
    ensures |s| == |directories|
  {
    seq(|directories|, i requires 0 <= i < |directories| => directories[i].name)
  }

  predicate WellNamed(volumeLabel: ShortName, files: seq<File>, directories: seq<Directory>) {
    && volumeLabel[0] != 0
    && Nameable(DirectoryNames(directories) + FileNames(files))
    && forall j | 0 <= j < |directories| :: Nameable(FileNames(directories[j].children))
  }

  ghost predicate Opens(m: Mounted, dir: seq<byte>, f: File) {
    var k := Lookup(dir, f.name, 0);
    k.Some? && FileRead(m, EntryAt(dir, k.value), f)
  }

  /** Exactly the files are found in the directory, each under its name. */
  ghost predicate OpensExactly(m: Mounted, dir: seq<byte>, files: seq<File>) {
    && (forall i | 0 <= i < |files| :: Opens(m, dir, files[i]))
    && (forall name: ShortName | name !in FileNames(files) && name != DOT && name != DOT_DOT ::
          Lookup(dir, name, 0) == None)
  }

  ghost predicate DirectoryOpens(m: Mounted, dir: seq<byte>, d: Directory) {
    var k := Lookup(dir, d.name, 0);
    && k.Some? && EntryAt(dir, k.value)[11] == 0x10
    && match ReadDirectory(m, EntryCluster(EntryAt(dir, k.value)))
       case None => false
       case Some(sub) => OpensExactly(m, sub, d.children)
  }

  /** From the image alone: names lead to the files and directories that were given, and to nothing else. */
  ghost predicate Found(image: seq<byte>, files: seq<File>, directories: seq<Directory>) {
    match Mount(image)
    case None => false
    case Some(m) =>
      match ReadDirectory(m, m.root)
      case None => false
      case Some(dir) =>
        && (forall i | 0 <= i < |files| :: Opens(m, dir, files[i]))
        && (forall j | 0 <= j < |directories| :: DirectoryOpens(m, dir, directories[j]))
        && (forall name: ShortName | name !in DirectoryNames(directories) + FileNames(files) ::
              Lookup(dir, name, 0) == None)
  }

  lemma {:induction false} FileIsShown(m: Mounted, e: seq<byte>, f: File)
    requires |e| == ENTRY && FileRead(m, e, f) && f.name[0] != 0 && f.name[0] != DELETED
    ensures e[0] != 0 && Shown(e)
  {
    assert e[0] == EntryName(e)[0];
  }

  /** A subdirectory: its dot entries are passed over, its files listed. */
  lemma {:induction false} SubdirectoryFound(m: Mounted, e: seq<byte>, sub: seq<byte>, d: Directory)
    requires |e| == ENTRY && DirectoryRead(m, e, d) && ReadDirectory(m, EntryCluster(e)) == Some(sub)
    requires Nameable(FileNames(d.children))
    ensures OpensExactly(m, sub, d.children)
  {
    hide ReadDirectory, ReadEntry, EntryAt, DirectoryEntry, Lookup, FileRead;
    var names := FileNames(d.children);
    DotsPass(sub, EntryCluster(e));
    forall i | 0 <= i < |names|
      ensures EntryListed(sub, 2 + i, names[i])
    {
      assert names[i] == d.children[i].name;
      FileIsShown(m, EntryAt(sub, 2 + i), d.children[i]);
      NameIs(m, EntryAt(sub, 2 + i), d.children[i]);
    }
    assert Lists(sub, 2, names);
    forall name: ShortName | name != DOT && name != DOT_DOT
      ensures forall i | 0 <= i < |names| && names[i] == name :: Lookup(sub, name, 0) == Some(2 + i)
      ensures name !in names ==> Lookup(sub, name, 0) == None
    {
      LookupListed(sub, 2, names, name);
    }
    forall i | 0 <= i < |d.children|
      ensures Opens(m, sub, d.children[i])
    {
      assert names[i] == d.children[i].name;
      assert Lookup(sub, names[i], 0) == Some(2 + i);
    }
  }

  lemma {:induction false} NameIs(m: Mounted, e: seq<byte>, f: File)
    requires |e| == ENTRY && FileRead(m, e, f)
    ensures EntryName(e) == f.name
  {
  }

  lemma {:induction false} DotsPass(sub: seq<byte>, cluster: nat)
    requires 2 * ENTRY <= |sub|
    requires EntryAt(sub, 0) == DirectoryEntry(DOT, ATTR_DIRECTORY, cluster, 0)
    requires EntryAt(sub, 1) == DirectoryEntry(DOT_DOT, ATTR_DIRECTORY, 0, 0)
    ensures forall name: ShortName | name != DOT && name != DOT_DOT :: Passes(sub, 2, name)
  {
    hide Low;
    assert EntryName(EntryAt(sub, 0)) == DOT && EntryName(EntryAt(sub, 1)) == DOT_DOT;
  }

  lemma {:induction false} LabelPasses(dir: seq<byte>, volumeLabel: ShortName)
    requires |dir| >= ENTRY && volumeLabel[0] != 0
    requires EntryAt(dir, 0) == DirectoryEntry(volumeLabel, ATTR_VOLUME_ID, 0, 0)
    ensures forall name: ShortName :: Passes(dir, 1, name)
  {
    hide Low;
    assert EntryAt(dir, 0)[11] == ATTR_VOLUME_ID;
  }

  /** The root: the label is passed over, directories and files are listed. */
  lemma {:induction false} RootLists(m: Mounted, dir: seq<byte>, files: seq<File>, directories: seq<Directory>)
    requires Nameable(DirectoryNames(directories) + FileNames(files))
    requires DirectoriesRead(m, dir, 1, directories) && FilesRead(m, dir, 1 + |directories|, files)
    requires EndsAfter(dir, 1 + |directories| + |files|)
    ensures Lists(dir, 1, DirectoryNames(directories) + FileNames(files))
  {
    hide ReadDirectory, ReadEntry, EntryAt, DirectoryEntry;
    var names, n := DirectoryNames(directories) + FileNames(files), |directories|;
    forall i | 0 <= i < |names|
      ensures EntryListed(dir, 1 + i, names[i])
    {
      var x := EntryAt(dir, 1 + i);
      if i < n {
        assert DirectoryRead(m, x, directories[i]) && names[i] == directories[i].name;
        assert x[0] == EntryName(x)[0];
      } else {
        assert 1 + i == (1 + n) + (i - n);
        assert FileRead(m, x, files[i - n]) && names[i] == files[i - n].name;
        FileIsShown(m, x, files[i - n]);
      }
    }
  }

  /** Every file and directory of a readable image is found under its name, and nothing else is found. */
  lemma {:induction false} FoundByName(image: seq<byte>, volumeLabel: ShortName, files: seq<File>,
                                       directories: seq<Directory>)
    requires Readable(image, volumeLabel, files, directories) && WellNamed(volumeLabel, files, directories)
    ensures Found(image, files, directories)
  {
    hide Mount, ReadDirectory, ReadEntry, EntryAt, DirectoryEntry, Lookup, DirectoryRead, FileRead, OpensExactly, Lists,
         Passes, EndsAfter;
    var m := Mount(image).value;
    var dir := ReadDirectory(m, m.root).value;
    var names, n := DirectoryNames(directories) + FileNames(files), |directories|;
    RootLists(m, dir, files, directories);
    LabelPasses(dir, volumeLabel);
    forall name: ShortName
      ensures forall i | 0 <= i < |names| && names[i] == name :: Lookup(dir, name, 0) == Some(1 + i)
      ensures name !in names ==> Lookup(dir, name, 0) == None
    {
      LookupListed(dir, 1, names, name);
    }
    forall i | 0 <= i < |files|
      ensures Opens(m, dir, files[i])
    {
      assert names[n + i] == files[i].name;
      assert Lookup(dir, names[n + i], 0) == Some(1 + n + i);
    }
    forall j | 0 <= j < n
      ensures DirectoryOpens(m, dir, directories[j])
    {
      assert names[j] == directories[j].name;
      assert Lookup(dir, names[j], 0) == Some(1 + j);
      DirectoryFound(m, EntryAt(dir, 1 + j), directories[j]);
    }
  }

  lemma {:induction false} DirectoryFound(m: Mounted, e: seq<byte>, d: Directory)
    requires |e| == ENTRY && DirectoryRead(m, e, d) && Nameable(FileNames(d.children))
    ensures e[11] == 0x10 && ReadDirectory(m, EntryCluster(e)).Some?
    ensures OpensExactly(m, ReadDirectory(m, EntryCluster(e)).value, d.children)
  {
    hide ReadDirectory, OpensExactly, ReadEntry, EntryAt, DirectoryEntry;
    SubdirectoryFound(m, e, ReadDirectory(m, EntryCluster(e)).value, d);
  }
}
