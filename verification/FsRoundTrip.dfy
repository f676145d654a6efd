/** The image builder and the driver undo each other. */
module FsRoundTrip {
  import opened Wrappers
  import opened Machine
  import opened Bytes
  import opened FsImage
  import opened FsBuilder
  import opened FsDriver
  import opened BuddyState
  import opened PmmSpec
  import opened Tiling
  import opened Heap
  import opened HeapMemory
  import opened FdTable

  /** Files a partition can hold by name. */
  ghost predicate Storable(files: seq<File>) {
    && |files| <= MAX_FILES
    && forall i :: 0 <= i < |files| ==> 0 < |files[i].name| <= NAME_LEN && NulFree(files[i].name)
  }

  /** i is the first file whose name is what a query compares. */
  ghost predicate FirstNamed(files: seq<File>, query: seq<byte>, i: nat) {
    && i < |files| && files[i].name == Compared(query)
    && forall k :: 0 <= k < i ==> files[k].name != Compared(query)
  }

  function FileInfo(files: seq<File>, i: nat): DirInfo
    requires i < |files|
  {
    DirInfo(1, |files[i].data|, FirstBlock(files, i), BlocksFor(|files[i].data|))
  }

  function PathTo(query: seq<byte>): seq<byte> {
    BIN + [47] + query
  }

  // ----- Reading the image back ---------------------------------------------------

  /** The fields of an entry, cut back out. */
  lemma EntryFields(name: seq<byte>, kind: byte, size: nat, first: nat, count: nat)
    requires |name| <= NAME_LEN && size < UINT32 && first < UINT32 && count < UINT32
    ensures InfoOf(DirEntry(name, kind, size, first, count)) == DirInfo(kind, size, first, count)
    ensures NulFree(name) ==> UpToNul(DirEntry(name, kind, size, first, count)[..NAME_LEN]) == name
  {
    hide ToLE, ReadU32;
    var e := DirEntry(name, kind, size, first, count);
    var field := name + Zeros(NAME_LEN - |name|);
    assert e[..NAME_LEN] == field;
    assert e[17..21] == ToLE(size, 4);
    assert e[21..25] == ToLE(first, 4);
    assert e[25..29] == ToLE(count, 4);
    ReadU32Of(e, 17, size);
    ReadU32Of(e, 21, first);
    ReadU32Of(e, 25, count);
    if NulFree(name) {
      UpToNulIs(field, |name|);
      assert field[..|name|] == name;
    }
  }

  lemma SliceSlice(a: seq<byte>, b: seq<byte>, i: nat)
    requires i + ENTRY <= |a|
    ensures (a + b)[i..i + ENTRY] == a[i..i + ENTRY]
  {
  }

  /** Slot i of the bin directory: file i's entry, or empty past the last file. */
  lemma BinSlots(files: seq<File>, i: nat)
    requires Storable(files) && FirstBlock(files, |files|) <= MAX_BLOCKS && i < MAX_FILES
    ensures ShortNames(files)
    ensures i < |files| ==>
              && InfoOf(EntryOf(BinDir(files), i)) == FileInfo(files, i)
              && UpToNul(EntryOf(BinDir(files), i)[..NAME_LEN]) == files[i].name
              && EntryOf(BinDir(files), i)[0] == files[i].name[0] != 0
    ensures i >= |files| ==> EntryOf(BinDir(files), i)[0] == 0
  {
    hide DirEntry, ToLE, UpToNul, InfoOf, BinDir, EntryOf, FileEntry;
    if i < |files| {
      FullSlot(files, i);
      FieldsFit(files, i);
      var f := files[i];
      EntryFields(f.name, KIND_FILE, |f.data|, FirstBlock(files, i), BlocksFor(|f.data|));
      FileEntryIs(files, i);
      FirstOfField(EntryOf(BinDir(files), i), f.name);
    } else {
      EmptySlot(files, i);
    }
  }

  lemma FileEntryIs(files: seq<File>, i: nat)
    requires i < |files| && |files[i].name| <= NAME_LEN
    ensures var f := files[i];
            FileEntry(files, i) == DirEntry(f.name, KIND_FILE, |f.data|, FirstBlock(files, i), BlocksFor(|f.data|))
  {
  }

  lemma FullSlot(files: seq<File>, i: nat)
    requires |files| <= MAX_FILES && ShortNames(files) && i < |files|
    ensures EntryOf(BinDir(files), i) == FileEntry(files, i)
  {
    hide FileEntry;
    EntryAt(files, |files|, i);
    SliceSlice(Entries(files, |files|), Zeros(BLOCK - |files| * ENTRY), i * ENTRY);
  }

  /** An empty slot is all zeros: no name, and its kind is not "file". */
  lemma EmptySlot(files: seq<File>, i: nat)
    requires |files| <= MAX_FILES && ShortNames(files) && |files| <= i < MAX_FILES
    ensures InfoOf(EntryOf(BinDir(files), i)).kind == 0 && EntryOf(BinDir(files), i)[0] == 0
  {
    hide Entries;
    var pad := Zeros(BLOCK - |files| * ENTRY);
    assert BinDir(files)[i * ENTRY] == pad[(i - |files|) * ENTRY];
    assert BinDir(files)[i * ENTRY + 16] == pad[(i - |files|) * ENTRY + 16];
  }

  lemma FirstOfField(entry: seq<byte>, name: seq<byte>)
    requires |entry| == ENTRY && name != [] && UpToNul(entry[..NAME_LEN]) == name
    ensures entry[0] == name[0]
  {
  }

  /** Lookup in the built directory finds exactly the first file of the compared name. */
  lemma LookupExact(files: seq<File>, query: seq<byte>, i: nat)
    requires Storable(files) && FirstBlock(files, |files|) <= MAX_BLOCKS
    ensures ShortNames(files)
    ensures FoundAt(BinDir(files), query, i) <==> FirstNamed(files, query, i)
  {
    hide BinDir, EntryOf, UpToNul, InfoOf, FileInfo;
    var dir := BinDir(files);
    forall k | 0 <= k < MAX_FILES
      ensures k < |files| ==> EntryOf(dir, k)[0] != 0
                              && (FieldMatches(EntryOf(dir, k), query) <==> files[k].name == Compared(query))
      ensures k >= |files| ==> EntryOf(dir, k)[0] == 0
    {
      BinSlots(files, k);
    }
  }

  /** A word of t, read where t stands in s. */
  lemma WordInside(s: seq<byte>, t: seq<byte>, base: nat, at: nat, x: nat)
    requires base + |t| <= |s| && s[base..base + |t|] == t
    requires at + 4 <= |t| && t[at..at + 4] == ToLE(x, 4) && x < UINT32
    ensures ReadU32(s, base + at) == x
  {
    hide ToLE, ReadU32;
    SliceInside(s, t, base, at, at + 4);
    ReadU32Of(s, base + at, x);
  }

  lemma SliceInside(s: seq<byte>, t: seq<byte>, base: nat, i: nat, j: nat)
    requires base + |t| <= |s| && s[base..base + |t|] == t && i <= j <= |t|
    ensures s[base + i..base + j] == t[i..j]
  {
    var cut, part := s[base + i..base + j], t[i..j];
    forall k | 0 <= k < j - i
      ensures cut[k] == part[k]
    {
      assert s[base..base + |t|][i + k] == s[base + i + k];
    }
  }

  /** The superblock, as it is read. */
  lemma SuperblockFields(s: seq<byte>, blockCount: nat)
    requires |s| >= BLOCK && s[..BLOCK] == Superblock(blockCount) && blockCount < UINT32
    ensures s[..6] == AsciiBytes("AIkFS1") == MAGIC && s[6] == 1
    ensures ReadU32(s, 8) == blockCount && ReadU32(s, 12) == 1 && ReadU32(s, 16) == 1 && ReadU32(s, 20) == 2
  {
    hide ToLE, ReadU32;
    var t := Superblock(blockCount);
    assert s[0..BLOCK] == t;
    SliceInside(s, t, 0, 0, 7);
    assert t[0..7] == AsciiBytes("AIkFS1") + [1];
    assert s[..6] == s[0..7][..6] && s[6] == s[0..7][6];
    WordInside(s, t, 0, 8, blockCount) by { assert t[8..12] == ToLE(blockCount, 4); }
    WordInside(s, t, 0, 12, 1) by { assert t[12..16] == ToLE(1, 4); }
    WordInside(s, t, 0, 16, 1) by { assert t[16..20] == ToLE(1, 4); }
    WordInside(s, t, 0, 20, 2) by { assert t[20..24] == ToLE(2, 4); }
  }

  /** The root directory wherever it stands: one entry, for a directory named bin of one block, block 3. */
  lemma RootFields(s: seq<byte>, at: nat)
    requires at + BLOCK <= |s| && s[at..at + BLOCK] == RootDir()
    ensures UpToNul(s[at..at + NAME_LEN]) == AsciiBytes("bin") && s[at + 16] == 2
    ensures ReadU32(s, at + 17) == 512 && ReadU32(s, at + 21) == 3 && ReadU32(s, at + 25) == 1
    ensures forall i :: 1 <= i < MAX_FILES ==> s[at + i * ENTRY] == 0
  {
    hide ToLE, ReadU32, UpToNul;
    BinName();
    var t := RootDir();
    var field := BIN + Zeros(13);
    SliceInside(s, t, at, 0, 17);
    assert t[0..17] == field + [KIND_DIR];
    assert s[at..at + NAME_LEN] == s[at..at + 17][..16] == field && s[at + 16] == s[at..at + 17][16];
    UpToNulIs(field, 3);
    assert field[..3] == BIN;
    WordInside(s, t, at, 17, 512) by { assert t[17..21] == ToLE(512, 4); }
    WordInside(s, t, at, 21, 3) by { assert t[21..25] == ToLE(3, 4); }
    WordInside(s, t, at, 25, 1) by { assert t[25..29] == ToLE(1, 4); }
    forall i | 1 <= i < MAX_FILES
      ensures s[at + i * ENTRY] == 0
    {
      assert s[at..at + BLOCK][i * ENTRY] == t[i * ENTRY] == Zeros(BLOCK - ENTRY)[i * ENTRY - ENTRY];
    }
  }

  /** What the metadata of a built partition says, followed from word to word. The superblock leads to
      the bitmap block and to the root directory; the one entry there, a directory named bin, leads to
      the bin directory. */
  lemma MetadataReads(s: seq<byte>, blockCount: nat, bitmap: seq<byte>, dir: seq<byte>)
    requires |bitmap| == |dir| == BLOCK && |s| >= 4 * BLOCK && blockCount < UINT32
    requires s[..4 * BLOCK] == Superblock(blockCount) + bitmap + RootDir() + dir
    ensures s[..6] == AsciiBytes("AIkFS1") && s[6] == 1 && ReadU32(s, 8) == blockCount
    ensures var start, count := ReadU32(s, 12), ReadU32(s, 16);
            (start + count) * BLOCK <= |s| && s[start * BLOCK..(start + count) * BLOCK] == bitmap
    ensures var root := ReadU32(s, 20) * BLOCK;
            && root + BLOCK <= |s| && UpToNul(s[root..root + NAME_LEN]) == AsciiBytes("bin") && s[root + 16] == 2
            && (forall i :: 1 <= i < MAX_FILES ==> s[root + i * ENTRY] == 0)
            && var first, count := ReadU32(s, root + 21), ReadU32(s, root + 25);
            && ReadU32(s, root + 17) == count * BLOCK && (first + count) * BLOCK <= |s|
            && s[first * BLOCK..(first + count) * BLOCK] == dir
  {
    hide ReadU32, Superblock, RootDir, UpToNul, AsciiBytes;
    FourBlocks(s, Superblock(blockCount), bitmap, RootDir(), dir);
    SuperblockFields(s, blockCount);
    RootFields(s, 2 * BLOCK);
  }

  /** On the image of at most 16 files: the directory reached is that of the files, and the block of
      bits marks what the bitmap does. */
  lemma ImageReads(blockCount: nat, bitmap: seq<byte>, files: seq<File>)
    requires Storable(files) && ShortNames(files) && FirstBlock(files, |files|) <= blockCount < UINT32
    requires MarksFirst(bitmap, FirstBlock(files, |files|)) && |bitmap| == BLOCK
    ensures var s := Image(blockCount, bitmap, files);
            var start, count, root := ReadU32(s, 12), ReadU32(s, 16), ReadU32(s, 20) * BLOCK;
            && (start + count) * BLOCK <= |s|
            && MarksFirst(s[start * BLOCK..(start + count) * BLOCK], FirstBlock(files, |files|))
            && root + BLOCK <= |s| && UpToNul(s[root..root + NAME_LEN]) == AsciiBytes("bin") && s[root + 16] == 2
            && var first, count := ReadU32(s, root + 21), ReadU32(s, root + 25);
            (first + count) * BLOCK <= |s| && s[first * BLOCK..(first + count) * BLOCK] == BinDir(files)
  {
    hide Image, ReadU32, Superblock, RootDir, UpToNul, AsciiBytes, BinDir, MarksFirst, FirstBlock;
    ImageParts(blockCount, bitmap, files);
    MetadataReads(Image(blockCount, bitmap, files), blockCount, bitmap, BinDir(files));
  }

  lemma FourBlocks(s: seq<byte>, a: seq<byte>, b: seq<byte>, c: seq<byte>, d: seq<byte>)
    requires |a| == |b| == |c| == |d| == BLOCK && |s| >= 4 * BLOCK && s[..4 * BLOCK] == a + b + c + d
    ensures s[..BLOCK] == a && s[BLOCK..2 * BLOCK] == b && s[2 * BLOCK..3 * BLOCK] == c && s[3 * BLOCK..4 * BLOCK] == d
  {
    var t := a + b + c + d;
    assert t[..BLOCK] == a && t[BLOCK..2 * BLOCK] == b && t[2 * BLOCK..3 * BLOCK] == c && t[3 * BLOCK..4 * BLOCK] == d;
    assert s[0..4 * BLOCK] == t;
    SliceInside(s, t, 0, 0, BLOCK);
    SliceInside(s, t, 0, BLOCK, 2 * BLOCK);
    SliceInside(s, t, 0, 2 * BLOCK, 3 * BLOCK);
    SliceInside(s, t, 0, 3 * BLOCK, 4 * BLOCK);
  }

  /** What fs_init sees on a built partition. */
  lemma InitSees(blockCount: nat, bitmap: seq<byte>, files: seq<File>)
    requires Storable(files) && |bitmap| == BLOCK && ShortNames(files)
    requires FirstBlock(files, |files|) <= blockCount < UINT32
    ensures var s := Image(blockCount, bitmap, files);
            && |s| >= 4 * BLOCK
            && s[..6] == MAGIC && s[6] == 1 && ReadU32(s, 8) == blockCount && ReadU32(s, 20) == 2
  {
    hide Image, Superblock, ReadU32, RootDir, BinDir, AsciiBytes;
    var s := Image(blockCount, bitmap, files);
    ImageParts(blockCount, bitmap, files);
    assert s[..4 * BLOCK][..BLOCK] == s[..BLOCK];
    SuperblockFields(s, blockCount);
  }

  /** File i's bytes lie where its entry says. */
  lemma DataInImage(blockCount: nat, bitmap: seq<byte>, files: seq<File>, i: nat)
    requires Storable(files) && |bitmap| == BLOCK && ShortNames(files) && i < |files|
    requires FirstBlock(files, |files|) <= blockCount
    ensures var s := Image(blockCount, bitmap, files);
            var info := FileInfo(files, i);
            && (info.first + info.count) * BLOCK <= |s|
            && Copied(info) == info.size
            && s[info.first * BLOCK..info.first * BLOCK + Copied(info)] == files[i].data
  {
    hide Image, Superblock, RootDir, BinDir, DataBlocks;
    var s := Image(blockCount, bitmap, files);
    ImageParts(blockCount, bitmap, files);
    DataAt(files, |files|, i);
    ExtentArithmetic(files, i, blockCount);
    hide FirstBlock, BlocksFor;
    DataSlice(s, DataBlocks(files, |files|), (FirstBlock(files, i) - 4) * BLOCK, |files[i].data|);
  }

  lemma ExtentArithmetic(files: seq<File>, i: nat, blockCount: nat)
    requires i < |files| && FirstBlock(files, |files|) <= blockCount
    ensures var info := FileInfo(files, i);
            && (info.first + info.count) * BLOCK <= blockCount * BLOCK && Copied(info) == info.size
            && info.first * BLOCK == 4 * BLOCK + (FirstBlock(files, i) - 4) * BLOCK
  {
    DataInside(files, i, blockCount);
    BlocksForBound(|files[i].data|);
    hide FirstBlock, BlocksFor;
  }

  /** A stretch of the data blocks, cut out of the image. */
  lemma DataSlice(s: seq<byte>, d: seq<byte>, start: nat, n: nat)
    requires |s| >= 4 * BLOCK && |d| <= |s| - 4 * BLOCK && s[4 * BLOCK..][..|d|] == d && start + n <= |d|
    ensures s[4 * BLOCK + start..4 * BLOCK + start + n] == d[start..start + n]
  {
    var cut, part := s[4 * BLOCK + start..4 * BLOCK + start + n], d[start..start + n];
    forall k | 0 <= k < n
      ensures cut[k] == part[k]
    {
      assert s[4 * BLOCK..][..|d|][start + k] == s[4 * BLOCK + start + k];
    }
  }

  lemma BuiltExtentsInside(blockCount: nat, bitmap: seq<byte>, files: seq<File>)
    requires Storable(files) && |bitmap| == BLOCK && ShortNames(files)
    requires FirstBlock(files, |files|) <= MAX_BLOCKS && FirstBlock(files, |files|) <= blockCount <= DISK_LIMIT / BLOCK
    ensures ExtentsInside(Image(blockCount, bitmap, files))
  {
    var s := Image(blockCount, bitmap, files);
    ImageParts(blockCount, bitmap, files);
    hide Image, BinDir, EntryOf, InfoOf;
    forall i | 0 <= i < MAX_FILES
      ensures InfoOf(EntryOf(BinDirOf(s), i)).kind == KIND_FILE ==>
                (InfoOf(EntryOf(BinDirOf(s), i)).first + InfoOf(EntryOf(BinDirOf(s), i)).count) * BLOCK <= |s|
    {
      BinSlots(files, i);
      if i < |files| {
        DataInImage(blockCount, bitmap, files, i);
      } else {
        EmptySlot(files, i);
      }
    }
  }

  /** For every query against a built bin directory: a path under bin names exactly the first file whose
      name is the query's first 16 bytes, with that file's size and place. */
  lemma NamesInDir(s: seq<byte>, files: seq<File>, query: seq<byte>, info: DirInfo)
    requires Storable(files) && ShortNames(files) && NulFree(query) && FirstBlock(files, |files|) <= MAX_BLOCKS
    requires |s| >= 4 * BLOCK && BinDirOf(s) == BinDir(files)
    ensures Names(s, PathTo(query), info) <==>
              exists i :: 0 <= i < |files| && FirstNamed(files, query, i) && info == FileInfo(files, i)
  {
    hide BinDir, EntryOf, InfoOf, FoundAt;
    var dir := BinDir(files);
    assert PathTo(query)[..4] == BIN + [47] && PathTo(query)[4..] == query;
    forall i | 0 <= i < MAX_FILES
      ensures FoundAt(dir, query, i) <==> FirstNamed(files, query, i)
      ensures i < |files| ==> InfoOf(EntryOf(dir, i)) == FileInfo(files, i)
    {
      LookupExact(files, query, i);
      BinSlots(files, i);
    }
    if query == [] {
      assert Query(PathTo(query)) == None;
      assert forall i :: !FirstNamed(files, query, i);
    } else {
      assert Query(PathTo(query)) == Some(query);
    }
  }

  /** For every path there is: only one under bin/ names anything, and a descriptor's path names what it
      does without its leading slash. */
  lemma OnlyUnderBin(s: seq<byte>, path: seq<byte>, info: DirInfo)
    requires |s| >= 4 * BLOCK
    ensures Names(s, path, info) ==> |path| > 4 && path == PathTo(path[4..])
    ensures Names(s, Stripped(path), info) ==>
              exists query :: query != [] && (path == PathTo(query) || path == [47] + PathTo(query))
  {
    hide FoundAt;
    forall p: seq<byte> | Names(s, p, info)
      ensures |p| > 4 && p == PathTo(p[4..])
    {
      assert p == p[..4] + p[4..];
    }
    if Names(s, Stripped(path), info) {
      var query := Stripped(path)[4..];
      assert path != Stripped(path) ==> path == [47] + Stripped(path);
      assert query != [] && (path == PathTo(query) || path == [47] + PathTo(query));
    }
  }

  /** On a built image, for every query. */
  lemma NamesExact(blockCount: nat, bitmap: seq<byte>, files: seq<File>, query: seq<byte>, info: DirInfo)
    requires Storable(files) && |bitmap| == BLOCK && ShortNames(files) && NulFree(query)
    requires FirstBlock(files, |files|) <= MAX_BLOCKS && FirstBlock(files, |files|) <= blockCount
    ensures |Image(blockCount, bitmap, files)| >= 4 * BLOCK
    ensures Names(Image(blockCount, bitmap, files), PathTo(query), info) <==>
              exists i :: 0 <= i < |files| && FirstNamed(files, query, i) && info == FileInfo(files, i)
  {
    ImageParts(blockCount, bitmap, files);
    hide Image, BinDir, Names, FirstNamed;
    NamesInDir(Image(blockCount, bitmap, files), files, query, info);
  }

  /** With more than 16 files the directory names the first 16, and no other file is found by any query. */
  lemma OverfullNames(s: seq<byte>, files: seq<File>, query: seq<byte>, info: DirInfo)
    requires |files| > MAX_FILES && Storable(files[..MAX_FILES]) && ShortNames(files) && NulFree(query)
    requires FirstBlock(files, |files|) <= MAX_BLOCKS
    requires |s| >= 4 * BLOCK && s[3 * BLOCK..4 * BLOCK] == PaddedEntries(files, |files|)[..BLOCK]
    ensures Names(s, PathTo(query), info) <==>
              exists i :: 0 <= i < MAX_FILES && FirstNamed(files, query, i) && info == FileInfo(files, i)
  {
    var front := files[..MAX_FILES];
    FirstSixteen(files);
    assert BinDirOf(s) == BinDir(front);
    hide *;
    NamesInDir(s, front, query, info);
    forall i: nat | i < MAX_FILES
      ensures FileInfo(front, i) == FileInfo(files, i) && (FirstNamed(front, query, i) <==> FirstNamed(files, query, i))
    {
      SameFile(files, query, i);
    }
  }

  lemma SameFile(files: seq<File>, query: seq<byte>, i: nat)
    requires |files| > MAX_FILES && i < MAX_FILES
    ensures FileInfo(files[..MAX_FILES], i) == FileInfo(files, i)
    ensures FirstNamed(files[..MAX_FILES], query, i) <==> FirstNamed(files, query, i)
  {
    var front := files[..MAX_FILES];
    assert front + files[MAX_FILES..] == files;
    FirstBlockPrefix(front, files[MAX_FILES..], i);
  }

  /** What a builder's partition holds where an entry points is the file, whether or not the directory
      has outgrown its block: the first 16 files stay readable. */
  lemma PlacedIsReadable(s: seq<byte>, files: seq<File>, i: nat)
    requires i < |files| && DataPlaced(s, files, |files|)
    ensures var info := FileInfo(files, i);
            && Copied(info) == info.size && info.first * BLOCK + info.size <= |s|
            && s[info.first * BLOCK..info.first * BLOCK + Copied(info)] == files[i].data
  {
    assert PlacedAt(s, files, i);
    BlocksForBound(|files[i].data|);
  }

  /** The directory block of an overfull partition is that of its first 16 files. */
  lemma FirstSixteen(files: seq<File>)
    requires |files| > MAX_FILES && ShortNames(files)
    ensures ShortNames(files[..MAX_FILES]) && PaddedEntries(files, |files|)[..BLOCK] == BinDir(files[..MAX_FILES])
    ensures FirstBlock(files[..MAX_FILES], MAX_FILES) <= FirstBlock(files, |files|)
  {
    var front := files[..MAX_FILES];
    EntriesPrefix(files, MAX_FILES);
    EntriesStart(files, |files|, MAX_FILES);
    assert front + files[MAX_FILES..] == files;
    FirstBlockPrefix(front, files[MAX_FILES..], MAX_FILES);
    FirstBlockMonotone(files, MAX_FILES, |files|);
    NoPadding(files);
    NoPadding(front);
    hide *;
  }

  /** Sixteen entries or more leave no padding. */
  lemma NoPadding(files: seq<File>)
    requires |files| >= MAX_FILES && ShortNames(files)
    ensures PaddedEntries(files, |files|) == Entries(files, |files|)
    ensures |files| == MAX_FILES ==> BinDir(files) == Entries(files, MAX_FILES)
  {
    hide Entries;
  }

  lemma {:induction false} EntriesStart(files: seq<File>, n: nat, k: nat)
    requires k <= n <= |files| && ShortNames(files)
    ensures Entries(files, n)[..k * ENTRY] == Entries(files, k)
  {
    if k < n {
      EntriesStart(files, n - 1, k);
      assert (Entries(files, n - 1) + FileEntry(files, n - 1))[..k * ENTRY] == Entries(files, n - 1)[..k * ENTRY];
    } else {
      assert Entries(files, n)[..n * ENTRY] == Entries(files, n);
    }
  }

  lemma {:induction false} EntriesPrefix(files: seq<File>, n: nat)
    requires n <= MAX_FILES <= |files| && ShortNames(files)
    ensures ShortNames(files[..MAX_FILES]) && Entries(files[..MAX_FILES], n) == Entries(files, n)
  {
    if n > 0 {
      var front := files[..MAX_FILES];
      EntriesPrefix(files, n - 1);
      assert front + files[MAX_FILES..] == files;
      FirstBlockPrefix(front, files[MAX_FILES..], n - 1);
    }
  }

  /** Queries of at most 16 bytes over distinct names: only the exact name is found. */
  lemma ShortQueriesExact(files: seq<File>, query: seq<byte>, i: nat)
    requires |query| <= NAME_LEN && forall a, b :: 0 <= a < b < |files| ==> files[a].name != files[b].name
    ensures FirstNamed(files, query, i) <==> i < |files| && files[i].name == query
  {
    assert Compared(query) == query;
  }

  /** A longer query is not refused for its length, though no file has that name: it finds the first file
      named by its first 16 bytes, if there is one. */
  lemma LongQueryFound(files: seq<File>, query: seq<byte>)
    requires Storable(files) && |query| > NAME_LEN
    ensures forall i :: 0 <= i < |files| ==> files[i].name != query
    ensures (exists i: nat :: FirstNamed(files, query, i)) <==>
              exists i :: 0 <= i < |files| && files[i].name == query[..NAME_LEN]
  {
    if i :| 0 <= i < |files| && files[i].name == query[..NAME_LEN] {
      var k := FirstWithName(files, query[..NAME_LEN], i);
      assert FirstNamed(files, query, k);
    }
  }

  lemma FirstWithName(files: seq<File>, name: seq<byte>, i: nat) returns (k: nat)
    requires i < |files| && files[i].name == name
    ensures k <= i && files[k].name == name && forall l :: 0 <= l < k ==> files[l].name != name
  {
    k := 0;
    while files[k].name != name
      invariant k <= i && forall l :: 0 <= l < k ==> files[l].name != name
      decreases i - k
    {
      k := k + 1;
    }
  }

  // ----- The whole way -----------------------------------------------------------

  /** Mount a built partition and read a path: the file's bytes in heap memory, or -1 with the heap as it
      was when no file has that name or no memory is left. */
  method MountAndRead(image: seq<byte>, ghost blockCount: nat, ghost bitmap: seq<byte>, ghost files: seq<File>,
                      query: seq<byte>, m: Memory)
    returns (rc: int, pointer: nat, size: nat, ghost at: nat)
    requires m.Valid() && NulFree(query) && Storable(files) && ShortNames(files) && |bitmap| == BLOCK
    requires FirstBlock(files, |files|) <= MAX_BLOCKS && FirstBlock(files, |files|) <= blockCount <= DISK_LIMIT / BLOCK
    requires image == Image(blockCount, bitmap, files)
    modifies m.heap, m.heap.freeLists, m.heap.headers, m.heap.pmm, m.heap.pmm.bitmap, m.rest
    ensures m.Valid() && (rc == 0 || rc == -1)
    ensures rc == 0 ==> FirstNamed(files, query, at) && size == |files[at].data| && pointer + size <= MEMORY
                        && m.Bytes(pointer, size) == files[at].data
    ensures rc == -1 ==>
              m.heap.Abs() == old(m.heap.Abs()) && |m.heap.Abs().lists| == MAX_ORDER + 1 && |m.heap.Abs().bits| == PAGES
              && forall i: nat :: FirstNamed(files, query, i) ==> Kmalloc(old(m.heap.Abs()), |files[i].data|).pointer == 0
  {
    hide Image, Kmalloc, Inv, Storable, ShortNames, Names, FirstNamed, ReadU32, ByteAt, LivePages, BuddyHeap.Valid;
    ValidInv(m);
    InitSees(blockCount, bitmap, files);
    BuiltExtentsInside(blockCount, bitmap, files);
    InvShape(m.heap.Abs());
    var driver := new Driver(image);
    driver.Init();
    var path := PathTo(query);
    assert NulFree(path);
    hide PathTo, NulFree, FileInfo, ExtentsInside, MarksFirst;
    ghost var info;
    rc, pointer, size, info := driver.Read(path, m);
    at := 0;
    if rc == 0 {
      NamesExact(blockCount, bitmap, files, query, info);
      at :| 0 <= at < |files| && FirstNamed(files, query, at) && info == FileInfo(files, at);
      DataInImage(blockCount, bitmap, files, at);
      ghost var bytes := m.Bytes(pointer, size);
      assert bytes[..size] == bytes;
    } else {
      forall i: nat | FirstNamed(files, query, i)
        ensures i < |files| && Names(image, path, FileInfo(files, i))
      {
        FirstNamedInside(files, query, i);
        NamesExact(blockCount, bitmap, files, query, FileInfo(files, i));
      }
    }
  }

  lemma FirstNamedInside(files: seq<File>, query: seq<byte>, i: nat)
    requires FirstNamed(files, query, i)
    ensures i < |files|
  {
  }

  /** Build, mount, read: for any files the builder accepted. */
  method BuildAndRead(b: Builder, query: seq<byte>, m: Memory)
    returns (built: bool, rc: int, pointer: nat, size: nat, ghost at: nat)
    requires b.Valid() && m.Valid() && NulFree(query)
    requires Storable(b.Stored()) && b.blockCount <= DISK_LIMIT / BLOCK
    modifies m.heap, m.heap.freeLists, m.heap.headers, m.heap.pmm, m.heap.pmm.bitmap, m.rest
    ensures m.Valid()
    ensures built <==> b.nextDataBlock <= MAX_BLOCKS && NamesFit(b.files)
    ensures built && rc == 0 ==> FirstNamed(b.Stored(), query, at) && size == |b.Stored()[at].data|
                                 && pointer + size <= MEMORY && m.Bytes(pointer, size) == b.Stored()[at].data
    ensures built && rc != 0 ==>
              m.heap.Abs() == old(m.heap.Abs()) && |m.heap.Abs().lists| == MAX_ORDER + 1 && |m.heap.Abs().bits| == PAGES
              && forall i: nat :: FirstNamed(b.Stored(), query, i) ==>
                   Kmalloc(old(m.heap.Abs()), |b.Stored()[i].data|).pointer == 0
  {
    hide Image, Kmalloc, Inv, FirstNamed, MarksFirst, ByteAt, LivePages;
    var image := b.BuildPartition();
    if image.None? {
      return false, -1, 0, 0, 0;
    }
    ghost var bitmap := image.value[BLOCK..2 * BLOCK];
    built := true;
    rc, pointer, size, at := MountAndRead(image.value, b.blockCount, bitmap, b.Stored(), query, m);
  }

  // ----- Descriptors on a built partition ---------------------------------------------

  /** A descriptor opened on a built partition holds, byte for byte, the first file whose name is the
      first 16 bytes of the path's last part. */
  lemma OpenedOnImage(blockCount: nat, bitmap: seq<byte>, files: seq<File>, query: seq<byte>, d: OpenFile, info: DirInfo)
    requires Storable(files) && |bitmap| == BLOCK && ShortNames(files) && NulFree(query)
    requires FirstBlock(files, |files|) <= MAX_BLOCKS && FirstBlock(files, |files|) <= blockCount
    requires OpenedFile(Image(blockCount, bitmap, files), PathTo(query), d, info)
    ensures exists at :: 0 <= at < |files| && FirstNamed(files, query, at) && d.bytes == files[at].data
  {
    hide Image, FirstNamed, Names, Storable, ShortNames;
    NamesExact(blockCount, bitmap, files, query, info);
    var at :| 0 <= at < |files| && FirstNamed(files, query, at) && info == FileInfo(files, at);
    DataInImage(blockCount, bitmap, files, at);
    assert d.bytes[..Copied(info)] == d.bytes;
  }

  /** From the open on: what a descriptor delivers over any run that does not close it is a prefix of
      the stored file, all of it once it is at the end. */
  lemma OpenThenRead(blockCount: nat, bitmap: seq<byte>, files: seq<File>, query: seq<byte>,
                     t: seq<OpenFile>, i: nat, info: DirInfo, ops: seq<FdOp>)
    requires Storable(files) && |bitmap| == BLOCK && ShortNames(files) && NulFree(query)
    requires FirstBlock(files, |files|) <= MAX_BLOCKS && FirstBlock(files, |files|) <= blockCount
    requires Kept(t) && |t| == SLOTS && i < SLOTS && OpenedFile(Image(blockCount, bitmap, files), PathTo(query), t[i], info)
    requires forall op :: op in ops ==> IsFresh(op) && op != FdOp.Close(FIRST_FD + i)
    ensures var got := Delivered(t, ops, FIRST_FD + i);
            exists at ::
              && 0 <= at < |files| && FirstNamed(files, query, at) && got <= files[at].data
              && (|Run(t, ops)| == SLOTS && (Run(t, ops)[i].offset == |files[at].data| <==> got == files[at].data))
  {
    hide Image, FirstNamed, Storable, ShortNames, Names, Kept, IsFresh;
    KeptCount(t);
    OpenedOnImage(blockCount, bitmap, files, query, t[i], info);
    ReadsConcatenate(t, ops, i);
    KeptCount(Run(t, ops));
  }

  /** A path into the bin directory, as programs spell it, and what the table makes of either spelling. */
  lemma Spellings(query: seq<byte>, name: string)
    ensures PathTo(AsciiBytes(name)) == AsciiBytes("bin/" + name)
    ensures [47] + PathTo(AsciiBytes(name)) == AsciiBytes("/bin/" + name)
    ensures Stripped(PathTo(query)) == Stripped([47] + PathTo(query)) == PathTo(query)
    ensures NulFree(query) ==> NulFree([47] + PathTo(query))
  {
    assert ([47] + PathTo(query))[1..] == PathTo(query);
  }

  /** The whole way: mount a built partition, open a path in a new table, with or without
      a leading slash, and run any calls that do not close the descriptor. Its reads deliver a prefix of the named file, out of heap memory that the
      other calls allocate and free around it. */
  method OpenAndServe(image: seq<byte>, ghost blockCount: nat, ghost bitmap: seq<byte>, ghost files: seq<File>,
                      query: seq<byte>, path: seq<byte>, m: Memory, calls: seq<Call>)
    returns (fd: nat, got: seq<byte>, ghost at: nat)
    requires path == PathTo(query) || path == [47] + PathTo(query)
    requires m.Valid() && NulFree(query) && Storable(files) && ShortNames(files) && |bitmap| == BLOCK
    requires FirstBlock(files, |files|) <= MAX_BLOCKS && FirstBlock(files, |files|) <= blockCount <= DISK_LIMIT / BLOCK
    requires image == Image(blockCount, bitmap, files)
    requires forall k :: 0 <= k < |calls| ==> GoodCall(calls[k]) && calls[k] != CallClose(3)
    modifies m.heap, m.heap.freeLists, m.heap.headers, m.heap.pmm, m.heap.pmm.bitmap, m.rest
    ensures m.Valid() && (fd == 3 || fd == 0xFFFF_FFFF)
    ensures fd == 3 ==> FirstNamed(files, query, at) && got <= files[at].data
    ensures fd == 0xFFFF_FFFF ==>
              |old(m.heap.Abs()).lists| == MAX_ORDER + 1 && |old(m.heap.Abs()).bits| == PAGES
              && forall i: nat :: FirstNamed(files, query, i) ==> Kmalloc(old(m.heap.Abs()), |files[i].data|).pointer == 0
  {
    hide Image, Kmalloc, Inv, Storable, ShortNames, FirstNamed, ReadU32, ByteAt, BuddyHeap.Valid;
    hide Unshared, Owned, ViewOf, GoodCall;
    ValidInv(m);
    InitSees(blockCount, bitmap, files);
    BuiltExtentsInside(blockCount, bitmap, files);
    InvShape(m.heap.Abs());
    var driver := new Driver(image);
    driver.Init();
    var d := new Descriptors(driver, m);
    EmptyTable(d);
    got := [];
    fd, at := OpenNamed(d, blockCount, bitmap, files, query, path);
    if fd == FIRST_FD {
      got := Serve(d, calls, 0);
    }
  }

  /** The open, in a table whose first slot is free. */
  method OpenNamed(d: Descriptors, ghost blockCount: nat, ghost bitmap: seq<byte>, ghost files: seq<File>,
                   ghost query: seq<byte>, path: seq<byte>)
    returns (fd: nat, ghost at: nat)
    requires path == PathTo(query) || path == [47] + PathTo(query)
    requires d.Valid() && d.driver.initialized && FirstFree(d.View(), 0) && !FirstFree(d.View(), SLOTS)
    requires NulFree(query) && Storable(files) && ShortNames(files) && |bitmap| == BLOCK
    requires FirstBlock(files, |files|) <= MAX_BLOCKS && FirstBlock(files, |files|) <= blockCount
    requires d.driver.disk == Image(blockCount, bitmap, files)
    modifies d.m.heap, d.m.heap.freeLists, d.m.heap.headers, d.m.heap.pmm, d.m.heap.pmm.bitmap, d.m.rest, d.slots
    ensures d.Valid() && (fd == 3 || fd == 0xFFFF_FFFF)
    ensures fd == 3 ==>
              && FirstNamed(files, query, at) && at < |files|
              && d.View()[0].inUse && d.View()[0].offset == 0 && d.View()[0].bytes == files[at].data
    ensures fd == 0xFFFF_FFFF ==>
              |old(d.m.heap.Abs()).lists| == MAX_ORDER + 1 && |old(d.m.heap.Abs()).bits| == PAGES
              && forall i: nat :: FirstNamed(files, query, i) ==> Kmalloc(old(d.m.heap.Abs()), |files[i].data|).pointer == 0
  {
    hide Image, Kmalloc, Inv, Storable, ShortNames, Names, FirstNamed, ByteAt, LivePages, BuddyHeap.Valid, Driver.Valid;
    hide Unshared, Owned, ViewOf, OpenedFile, Step, IsFresh, Kept;
    ValidInv(d.m);
    InvShape(d.m.heap.Abs());
    ghost var named := PathTo(query);
    Spellings(query, "");
    at := 0;
    fd := d.Open(Some(path));
    if fd == FD_ERROR {
      forall i: nat | FirstNamed(files, query, i)
        ensures i < |files| && Names(d.driver.disk, named, FileInfo(files, i))
      {
        FirstNamedInside(files, query, i);
        NamesExact(blockCount, bitmap, files, query, FileInfo(files, i));
      }
    } else {
      at := OpenedName(blockCount, bitmap, files, query, d.View()[0]);
    }
  }

  lemma OpenedName(blockCount: nat, bitmap: seq<byte>, files: seq<File>, query: seq<byte>, d: OpenFile) returns (at: nat)
    requires Storable(files) && |bitmap| == BLOCK && ShortNames(files) && NulFree(query)
    requires FirstBlock(files, |files|) <= MAX_BLOCKS && FirstBlock(files, |files|) <= blockCount
    requires exists info :: OpenedFile(Image(blockCount, bitmap, files), PathTo(query), d, info)
    ensures FirstNamed(files, query, at) && at < |files| && d.bytes == files[at].data && d.inUse && d.offset == 0
  {
    hide FirstNamed, Names;
    var info :| OpenedFile(Image(blockCount, bitmap, files), PathTo(query), d, info);
    OpenedOnImage(blockCount, bitmap, files, query, d, info);
    at :| 0 <= at < |files| && FirstNamed(files, query, at) && d.bytes == files[at].data;
  }

  lemma EmptyTable(d: Descriptors)
    requires d.Valid() && forall i :: 0 <= i < d.slots.Length ==> d.slots[i] == CLOSED
    ensures FirstFree(d.View(), 0) && !FirstFree(d.View(), SLOTS)
  {
    assert d.View()[0] == Held(CLOSED, d.m.heap.headers[..], d.m.rest[..]);
  }

  lemma KeptCount(t: seq<OpenFile>)
    requires Kept(t)
    ensures |t| == SLOTS
  {
  }
}
