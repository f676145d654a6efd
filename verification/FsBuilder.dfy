/** The host-side image builder. Byte arrays are sequences because slice assignment may grow them. */
module FsBuilder {
  import opened Wrappers
  import opened Machine
  import opened Bits
  import opened Bytes
  import opened FsImage

  // ----- Python byte-array operations ------------------------------------------

  function Clip(i: nat, n: nat): nat {
    if i < n then i else n
  }

  /** s[lo:hi] = t on a byte array: bounds are clipped, and the length changes with |t|. */
  function SliceAssign(s: seq<byte>, lo: nat, hi: nat, t: seq<byte>): seq<byte>
    requires lo <= hi
  {
    s[..Clip(lo, |s|)] + t + s[Clip(hi, |s|)..]
  }

  /** b | (1 << k) */
  function OrBit(b: byte, k: nat): byte
    requires k < 8
  {
    BitRoom(b, k, 8);
    if Bit(b, k) then b else b + Pow2(k)
  }

  /** Setting a clear bit of an n-bit number stays in n bits. */
  lemma {:induction false} BitRoom(x: nat, k: nat, n: nat)
    requires x < Pow2(n) && k < n
    ensures !Bit(x, k) ==> x + Pow2(k) < Pow2(n)
  {
    var h, r := x / 2, x % 2;
    var top: nat := Pow2(n - 1);
    assert x == 2 * h + r && Pow2(n) == 2 * top;
    if Bit(x, k) {
    } else if k == 0 {
      assert r == 0;
    } else {
      BitRoom(h, k - 1, n - 1);
      var p := Pow2(k - 1);
      assert Pow2(k) == 2 * p && h + p < top;
    }
  }

  lemma {:induction false} AddBit(x: nat, k: nat, j: nat)
    requires !Bit(x, k)
    ensures Bit(x + Pow2(k), j) <==> j == k || Bit(x, j)
  {
    if k > 0 {
      if j > 0 {
        AddBit(x / 2, k - 1, j - 1);
      }
    } else if j > 0 {
      assert (x + 1) / 2 == x / 2;
    }
  }

  lemma OrBitMeaning(b: byte, k: nat, j: nat)
    requires k < 8
    ensures Bit(OrBit(b, k), j) <==> j == k || Bit(b, j)
  {
    if !Bit(b, k) {
      AddBit(b, k, j);
    }
  }

  /** name.encode('ascii') succeeds. */
  predicate IsAscii(name: string) {
    forall i :: 0 <= i < |name| ==> name[i] as int < 128
  }

  /** The encoded name; characters that do not encode stand as 0. */
  function AsciiBytes(name: string): (s: seq<byte>)
    ensures |s| == |name|
  {
    seq(|name|, i requires 0 <= i < |name| => if name[i] as int < 128 then name[i] as int else 0)
  }

  datatype FileRecord = FileRecord(name: string, size: nat, first: nat, count: nat, data: seq<byte>)
  datatype BinEntry = BinEntry(name: string, size: nat, first: nat, count: nat)

  /** The records as files of the image. */
  function FilesOf(records: seq<FileRecord>): (fs: seq<File>)
    ensures |fs| == |records|
  {
    seq(|records|, i requires 0 <= i < |records| => File(AsciiBytes(records[i].name), records[i].data))
  }

  /** Every name can be stored. */
  predicate NamesFit(records: seq<FileRecord>) {
    forall i :: 0 <= i < |records| ==> IsAscii(records[i].name) && |records[i].name| <= NAME_LEN
  }

  /** The bin directory as the builder lays it out: padded to a block, longer when there are too many files. */
  function PaddedEntries(files: seq<File>, n: nat): (s: seq<byte>)
    requires n <= |files| && ShortNames(files)
    ensures |s| == if n <= MAX_FILES then BLOCK else n * ENTRY
  {
    Entries(files, n) + Zeros(if n <= MAX_FILES then BLOCK - n * ENTRY else 0)
  }

  class Builder {
    const blockCount: nat
    var usedBlocks: seq<bool>
    var nextDataBlock: nat
    var files: seq<FileRecord>
    var binEntries: seq<BinEntry>

    ghost function Stored(): seq<File>
      reads this
    {
      FilesOf(files)
    }

    /** Files are packed from block 4; exactly the blocks before the next free one are used. */
    ghost predicate Valid()
      reads this
    {
      && 4 <= blockCount == |usedBlocks|
      && nextDataBlock == FirstBlock(Stored(), |files|) <= blockCount
      && (forall i :: 0 <= i < blockCount ==> (usedBlocks[i] <==> i < nextDataBlock))
      && |binEntries| == |files|
      && (forall i :: 0 <= i < |files| ==> Recorded(i))
    }

    ghost predicate Recorded(i: nat)
      reads this
      requires i < |files| && |binEntries| == |files|
    {
      var f := files[i];
      && f.size == |f.data| && f.count == BlocksFor(f.size) && f.first == FirstBlock(Stored(), i)
      && binEntries[i] == BinEntry(f.name, f.size, f.first, f.count)
    }

    /** Fewer than four sectors is an index error in the source. */
    constructor (partSectors: nat)
      requires partSectors >= 4
      ensures Valid() && blockCount == partSectors && files == []
    {
      blockCount := partSectors;
      usedBlocks := seq(partSectors, i => i < 4);
      nextDataBlock := 4;
      files, binEntries := [], [];
    }

    /** Appends a file after the previous one, or reports that it does not fit. */
    method AddFile(name: string, data: seq<byte>) returns (ok: bool)
      requires Valid()
      modifies this
      ensures Valid()
      ensures ok <==> old(nextDataBlock) + BlocksFor(|data|) <= blockCount
      ensures ok ==> Stored() == old(Stored()) + [File(AsciiBytes(name), data)]
                     && files[..|files| - 1] == old(files) && files[|files| - 1].name == name
      ensures !ok ==> files == old(files)
    {
      var size := |data|;
      var count := (size + BLOCK - 1) / BLOCK;
      var first := nextDataBlock;
      if first + count > blockCount {
        return false;
      }
      MarkUsed(first, count);
      nextDataBlock := first + count;
      ghost var before := Stored();
      files := files + [FileRecord(name, size, first, count, data)];
      binEntries := binEntries + [BinEntry(name, size, first, count)];
      ghost var added := [File(AsciiBytes(name), data)];
      assert Stored() == before + added;
      forall i | 0 <= i <= |before|
        ensures FirstBlock(Stored(), i) == FirstBlock(before, i)
      {
        FirstBlockPrefix(before, added, i);
      }
      forall i | 0 <= i < |files|
        ensures Recorded(i)
      {
        assert i < |before| ==> old(Recorded(i));
      }
      return true;
    }

    method MarkUsed(first: nat, count: nat)
      requires first + count <= |usedBlocks|
      modifies this`usedBlocks
      ensures |usedBlocks| == old(|usedBlocks|)
      ensures forall b :: 0 <= b < |usedBlocks| ==> (usedBlocks[b] <==> first <= b < first + count || old(usedBlocks)[b])
    {
      var i := 0;
      while i < count
        invariant i <= count && |usedBlocks| == old(|usedBlocks|)
        invariant forall b :: 0 <= b < |usedBlocks| ==> (usedBlocks[b] <==> first <= b < first + i || old(usedBlocks)[b])
      {
        usedBlocks := usedBlocks[first + i := true];
        i := i + 1;
      }
    }

    /** One bit per used block; a used block past 4096 is an index error. */
    method BuildBitmap() returns (r: Option<seq<byte>>)
      requires Valid()
      ensures r.None? <==> nextDataBlock > MAX_BLOCKS
      ensures r.Some? ==> MarksFirst(r.value, nextDataBlock)
    {
      var bitmap: seq<byte> := Zeros(BLOCK);
      var i := 0;
      ZeroBits();
      while i < |usedBlocks|
        invariant i <= |usedBlocks| && |bitmap| == BLOCK
        invariant forall b :: 0 <= b < MAX_BLOCKS ==> (Bit(bitmap[b / 8], b % 8) <==> b < i && b < nextDataBlock)
        invariant Clip(i, nextDataBlock) <= MAX_BLOCKS
      {
        if usedBlocks[i] {
          var byteIdx, bitIdx := i / 8, i % 8;
          if byteIdx >= |bitmap| {
            return None;
          }
          ghost var before := bitmap;
          bitmap := bitmap[byteIdx := OrBit(bitmap[byteIdx], bitIdx)];
          forall b | 0 <= b < MAX_BLOCKS
            ensures Bit(bitmap[b / 8], b % 8) <==> b == i || Bit(before[b / 8], b % 8)
          {
            OrBitMeaning(before[byteIdx], bitIdx, b % 8);
          }
        }
        i := i + 1;
      }
      return Some(bitmap);
    }

    /** Packing a number of 2^32 or more into four bytes is an error. */
    method BuildSuperblock() returns (r: Option<seq<byte>>)
      ensures r == if blockCount < UINT32 then Some(Superblock(blockCount)) else None
    {
      if blockCount >= UINT32 {
        return None;
      }
      hide ToLE;
      var sb: seq<byte> := Zeros(BLOCK);
      sb := SliceAssign(sb, 0, 6, MAGIC);
      sb := sb[6 := 1];
      assert sb == MAGIC + [1, 0] + Zeros(504);
      sb := SliceAssign(sb, 8, 12, ToLE(blockCount, 4));
      assert sb == MAGIC + [1, 0] + ToLE(blockCount, 4) + Zeros(500);
      sb := SliceAssign(sb, 12, 16, ToLE(1, 4));
      assert sb == MAGIC + [1, 0] + ToLE(blockCount, 4) + ToLE(1, 4) + Zeros(496);
      sb := SliceAssign(sb, 16, 20, ToLE(1, 4));
      assert sb == MAGIC + [1, 0] + ToLE(blockCount, 4) + ToLE(1, 4) + ToLE(1, 4) + Zeros(492);
      sb := SliceAssign(sb, 20, 24, ToLE(2, 4));
      assert sb == MAGIC + [1, 0] + ToLE(blockCount, 4) + ToLE(1, 4) + ToLE(1, 4) + ToLE(2, 4) + Zeros(488);
      return Some(sb);
    }

    static method BuildDirEntry(name: string, kind: byte, size: nat, first: nat, count: nat) returns (r: Option<seq<byte>>)
      ensures r.Some? <==> (forall i :: 0 <= i < |name| ==> name[i] as int <= 0x7F) && |name| <= 16
                           && size < UINT32 && first < UINT32 && count < UINT32
      ensures r.Some? ==> r.value == DirEntry(AsciiBytes(name), kind, size, first, count)
      ensures r.Some? ==> forall i :: 0 <= i < |name| ==> name[i] as int <= 0x7F && AsciiBytes(name)[i] as int == name[i] as int
    {
      if !IsAscii(name) || |name| > NAME_LEN || size >= UINT32 || first >= UINT32 || count >= UINT32 {
        return None;
      }
      hide ToLE, AsciiBytes;
      var entry: seq<byte> := Zeros(ENTRY);
      ghost var field := AsciiBytes(name) + Zeros(NAME_LEN - |name|);
      entry := SliceAssign(entry, 0, |name|, AsciiBytes(name));
      entry := entry[16 := kind];
      assert entry == field + [kind] + Zeros(15);
      entry := SliceAssign(entry, 17, 21, ToLE(size, 4));
      assert entry == field + [kind] + ToLE(size, 4) + Zeros(11);
      entry := SliceAssign(entry, 21, 25, ToLE(first, 4));
      assert entry == field + [kind] + ToLE(size, 4) + ToLE(first, 4) + Zeros(7);
      entry := SliceAssign(entry, 25, 29, ToLE(count, 4));
      return Some(entry);
    }

    static method BuildRootDir() returns (r: seq<byte>)
      ensures r == RootDir()
    {
      BinName();
      hide ToLE, AsciiBytes, DirEntry, IsAscii;
      var root: seq<byte> := Zeros(BLOCK);
      var entry := BuildDirEntry("bin", KIND_DIR, BLOCK, 3, 1);
      r := SliceAssign(root, 0, ENTRY, entry.value);
      assert r == entry.value + Zeros(BLOCK - ENTRY);
    }

    /** The entry of file n. */
    method BuildFileEntry(n: nat) returns (r: Option<seq<byte>>)
      requires Valid() && nextDataBlock <= MAX_BLOCKS && n < |binEntries|
      ensures r.Some? <==> IsAscii(files[n].name) && |files[n].name| <= NAME_LEN
      ensures r.Some? ==> r.value == FileEntry(Stored(), n)
    {
      hide DirEntry, ToLE, FirstBlock, BlocksFor;
      var b := binEntries[n];
      assert Recorded(n);
      FieldsFit(Stored(), n);
      r := BuildDirEntry(b.name, KIND_FILE, b.size, b.first, b.count);
    }

    /** One entry per file in order of adding. Runs after the bitmap, so at most 4096 blocks are in use. */
    method BuildBinDir() returns (r: Option<seq<byte>>)
      requires Valid() && nextDataBlock <= MAX_BLOCKS
      ensures r.Some? <==> NamesFit(files)
      ensures r.Some? ==> ShortNames(Stored()) && r.value == PaddedEntries(Stored(), |files|)
    {
      var binDir: seq<byte> := Zeros(BLOCK);
      var offset, n := 0, 0;
      assert NamesFit(files) ==> binDir == PaddedEntries(Stored(), 0);
      while n < |binEntries|
        invariant n <= |files| == |binEntries| && offset == n * ENTRY
        invariant forall i :: 0 <= i < n ==> IsAscii(files[i].name) && |files[i].name| <= NAME_LEN
        invariant Listing(binDir, files, n)
      {
        hide FileEntry, Listing;
        var entry := BuildFileEntry(n);
        if entry.None? {
          return None;
        }
        NextEntry(binDir, files, n, entry.value);
        binDir := SliceAssign(binDir, offset, offset + ENTRY, entry.value);
        offset := offset + ENTRY;
        n := n + 1;
      }
      return Some(binDir);
    }

    /** Fails exactly when a name cannot be stored or a number does not fit. The metadata comes first,
        and every file's bytes are at its first block. With at most 16 files the partition is the image
        of the stored files; with more, the bin directory outgrows its block, the rest of it is pushed
        among the data, and the partition is longer than it should be. */
    method BuildPartition() returns (r: Option<seq<byte>>)
      requires Valid()
      ensures r.None? <==> blockCount >= UINT32 || nextDataBlock > MAX_BLOCKS || !NamesFit(files)
      ensures r.Some? ==> |r.value| == blockCount * BLOCK + if |files| > MAX_FILES then (|files| - MAX_FILES) * ENTRY else 0
      ensures r.Some? ==>
                var bitmap := r.value[BLOCK..2 * BLOCK];
                && MarksFirst(bitmap, nextDataBlock) && ShortNames(Stored())
                && r.value[..4 * BLOCK]
                   == Superblock(blockCount) + bitmap + RootDir() + PaddedEntries(Stored(), |files|)[..BLOCK]
                && DataPlaced(r.value, Stored(), |files|)
      ensures r.Some? && |files| <= MAX_FILES ==> r.value == Image(blockCount, r.value[BLOCK..2 * BLOCK], Stored())
    {
      var sb := BuildSuperblock();
      if sb.None? {
        return None;
      }
      var bitmap := BuildBitmap();
      if bitmap.None? {
        return None;
      }
      var root := BuildRootDir();
      var binDir := BuildBinDir();
      if binDir.None? {
        return None;
      }
      hide Superblock, RootDir, PaddedEntries, BlocksFor, MarksFirst, Laid, DataPlaced;
      MarksLength(bitmap.value, nextDataBlock);
      var partition := PlaceMetadata(sb.value, bitmap.value, root, binDir.value);
      ghost var header := sb.value + bitmap.value + root + binDir.value;
      FrontBlocks(sb.value, bitmap.value, root, binDir.value, partition);
      partition := WriteData(partition, header);
      assert partition[BLOCK..2 * BLOCK] == partition[..4 * BLOCK][BLOCK..2 * BLOCK];
      if |files| <= MAX_FILES {
        Assembled(blockCount, bitmap.value, Stored(), partition);
      }
      return Some(partition);
    }

    method PlaceMetadata(sb: seq<byte>, bitmap: seq<byte>, root: seq<byte>, binDir: seq<byte>)
      returns (partition: seq<byte>)
      requires Valid() && |sb| == |bitmap| == |root| == BLOCK && |binDir| >= BLOCK
      ensures |partition| == 3 * BLOCK + |binDir| + (blockCount - 4) * BLOCK
      ensures Laid(partition, sb + bitmap + root + binDir, Stored(), 0, blockCount)
      ensures partition == sb + bitmap + root + binDir + Zeros((blockCount - 4) * BLOCK)
    {
      partition := Zeros(blockCount * BLOCK);
      partition := SliceAssign(partition, 0, BLOCK, sb);
      partition := SliceAssign(partition, BLOCK, 2 * BLOCK, bitmap);
      partition := SliceAssign(partition, 2 * BLOCK, 3 * BLOCK, root);
      partition := SliceAssign(partition, 3 * BLOCK, 4 * BLOCK, binDir);
      HeaderPlaced(sb, bitmap, root, binDir, (blockCount - 4) * BLOCK);
      ghost var header := sb + bitmap + root + binDir;
      assert header + DataBlocks(Stored(), 0) == header;
    }

    /** The loop that copies file contents to their blocks. */
    method WriteData(start: seq<byte>, ghost header: seq<byte>) returns (partition: seq<byte>)
      requires Valid() && |start| >= blockCount * BLOCK && Laid(start, header, Stored(), 0, blockCount)
      ensures |partition| == |start| && partition[..4 * BLOCK] == start[..4 * BLOCK]
      ensures DataPlaced(partition, Stored(), |files|)
      ensures |header| == 4 * BLOCK ==> Laid(partition, header, Stored(), |files|, blockCount)
    {
      hide Laid, BlocksFor, FirstBlock, DataPlaced;
      partition := start;
      var n := 0;
      NonePlaced(start, Stored());
      while n < |files|
        invariant n <= |files| && |partition| == |start| && partition[..4 * BLOCK] == start[..4 * BLOCK]
        invariant DataPlaced(partition, Stored(), n)
        invariant |header| == 4 * BLOCK ==> Laid(partition, header, Stored(), n, blockCount)
      {
        partition := WriteFile(partition, n, header);
        n := n + 1;
      }
    }

    /** File n goes over whatever is at its first block. */
    method WriteFile(before: seq<byte>, n: nat, ghost header: seq<byte>) returns (partition: seq<byte>)
      requires Valid() && n < |files| && |before| >= blockCount * BLOCK && DataPlaced(before, Stored(), n)
      requires |header| == 4 * BLOCK ==> Laid(before, header, Stored(), n, blockCount)
      ensures |partition| == |before| && partition[..4 * BLOCK] == before[..4 * BLOCK]
      ensures DataPlaced(partition, Stored(), n + 1)
      ensures |header| == 4 * BLOCK ==> Laid(partition, header, Stored(), n + 1, blockCount)
    {
      hide Laid, BlocksFor, FirstBlock, DataPlaced, SliceAssign;
      var f := files[n];
      assert Recorded(n);
      DataInside(Stored(), n, blockCount);
      var at := f.first * BLOCK;
      if |header| == 4 * BLOCK {
        NextData(before, header, Stored(), n, blockCount);
      }
      SliceOver(before, at, f.data);
      partition := SliceAssign(before, at, at + f.size, f.data);
      NextPlaced(before, partition, Stored(), n);
    }
  }

  /** File k's bytes are at its first block. */
  ghost predicate PlacedAt(p: seq<byte>, files: seq<File>, k: nat)
    requires k < |files|
  {
    var at := FirstBlock(files, k) * BLOCK;
    at + |files[k].data| <= |p| && p[at..at + |files[k].data|] == files[k].data
  }

  ghost predicate DataPlaced(p: seq<byte>, files: seq<File>, n: nat)
    requires n <= |files|
  {
    forall k :: 0 <= k < n ==> PlacedAt(p, files, k)
  }

  lemma NonePlaced(p: seq<byte>, files: seq<File>)
    ensures DataPlaced(p, files, 0)
  {
  }

  /** Writing t inside s: the length stays, t is there, and nothing before it changes. */
  lemma SliceOver(s: seq<byte>, lo: nat, t: seq<byte>)
    requires lo + |t| <= |s|
    ensures var r := SliceAssign(s, lo, lo + |t|, t);
            |r| == |s| && r[lo..lo + |t|] == t && r[..lo] == s[..lo]
  {
  }

  /** File n's bytes lie behind those of the files before it. */
  lemma NextPlaced(before: seq<byte>, after: seq<byte>, files: seq<File>, n: nat)
    requires n < |files| && DataPlaced(before, files, n) && |after| == |before|
    requires FirstBlock(files, n) * BLOCK <= |after|
    requires after[..FirstBlock(files, n) * BLOCK] == before[..FirstBlock(files, n) * BLOCK]
    requires PlacedAt(after, files, n)
    ensures DataPlaced(after, files, n + 1) && after[..4 * BLOCK] == before[..4 * BLOCK]
  {
    var cut := FirstBlock(files, n) * BLOCK;
    hide PlacedAt, FirstBlock, BlocksFor;
    forall k | 0 <= k < n
      ensures PlacedAt(after, files, k)
    {
      StaysPlaced(before, after, files, n, k);
    }
    SamePart(before, after, cut, 0, 4 * BLOCK);
  }

  lemma SamePart(s: seq<byte>, t: seq<byte>, cut: nat, i: nat, j: nat)
    requires i <= j <= cut <= |s| && cut <= |t| && s[..cut] == t[..cut]
    ensures s[i..j] == t[i..j]
  {
    assert s[i..j] == s[..cut][i..j] && t[i..j] == t[..cut][i..j];
  }

  lemma StaysPlaced(before: seq<byte>, after: seq<byte>, files: seq<File>, n: nat, k: nat)
    requires k < n < |files| && PlacedAt(before, files, k) && |after| == |before|
    requires FirstBlock(files, n) * BLOCK <= |after|
    requires after[..FirstBlock(files, n) * BLOCK] == before[..FirstBlock(files, n) * BLOCK]
    ensures PlacedAt(after, files, k)
  {
    FirstBlockMonotone(files, k + 1, n);
    BlocksForBound(|files[k].data|);
    var at, cut := FirstBlock(files, k) * BLOCK, FirstBlock(files, n) * BLOCK;
    assert FirstBlock(files, k + 1) == FirstBlock(files, k) + BlocksFor(|files[k].data|);
    hide FirstBlock, BlocksFor;
    assert at + |files[k].data| <= cut;
    SamePart(before, after, cut, at, at + |files[k].data|);
  }

  /** The first four blocks of the partition, whatever the directory's length. */
  lemma FrontBlocks(a: seq<byte>, b: seq<byte>, c: seq<byte>, d: seq<byte>, s: seq<byte>)
    requires |a| == |b| == |c| == BLOCK && |d| >= BLOCK && a + b + c + d <= s
    ensures |s| >= 4 * BLOCK && s[..4 * BLOCK] == a + b + c + d[..BLOCK]
    ensures (a + b + c + d[..BLOCK])[BLOCK..2 * BLOCK] == b
  {
    assert s[..4 * BLOCK] == (a + b + c + d)[..4 * BLOCK];
  }

  /** Metadata, the data of the first n files, zeros to the end. */
  ghost predicate Laid(partition: seq<byte>, header: seq<byte>, files: seq<File>, n: nat, blockCount: nat)
    requires n <= |files|
  {
    FirstBlock(files, n) <= blockCount
    && partition == header + DataBlocks(files, n) + Zeros((blockCount - FirstBlock(files, n)) * BLOCK)
  }

  lemma MarksLength(bitmap: seq<byte>, n: nat)
    requires MarksFirst(bitmap, n)
    ensures |bitmap| == BLOCK
  {
  }

  /** Metadata, data and padding in order are the image. */
  lemma Assembled(blockCount: nat, bitmap: seq<byte>, files: seq<File>, s: seq<byte>)
    requires |files| <= MAX_FILES && ShortNames(files) && |bitmap| == BLOCK
    requires Laid(s, Superblock(blockCount) + bitmap + RootDir() + PaddedEntries(files, |files|), files, |files|, blockCount)
    ensures FirstBlock(files, |files|) <= blockCount
    ensures s == Image(blockCount, bitmap, files) && s[BLOCK..2 * BLOCK] == bitmap
  {
    hide Superblock, RootDir, Entries, DataBlocks, FirstBlock;
    assert PaddedEntries(files, |files|) == BinDir(files);
    SecondPart(Superblock(blockCount), bitmap, RootDir(), BinDir(files), DataBlocks(files, |files|),
               Zeros((blockCount - FirstBlock(files, |files|)) * BLOCK));
  }

  lemma SecondPart(a: seq<byte>, b: seq<byte>, c: seq<byte>, d: seq<byte>, e: seq<byte>, z: seq<byte>)
    requires |a| == |b| == BLOCK
    ensures (a + b + c + d + e + z)[BLOCK..2 * BLOCK] == b
  {
  }

  /** The first n entries and padding; says something only when every name can be stored. */
  ghost predicate Listing(binDir: seq<byte>, records: seq<FileRecord>, n: nat)
    requires n <= |records|
  {
    NamesFit(records) ==> ShortNames(FilesOf(records)) && binDir == PaddedEntries(FilesOf(records), n)
  }

  /** Entry n replaces padding, or extends the directory past its block. */
  lemma NextEntry(s: seq<byte>, records: seq<FileRecord>, n: nat, e: seq<byte>)
    requires n < |records| && Listing(s, records, n)
    requires var files := FilesOf(records);
             |files[n].name| <= NAME_LEN ==> e == FileEntry(files, n)
    ensures Listing(SliceAssign(s, n * ENTRY, n * ENTRY + ENTRY, e), records, n + 1)
  {
    hide FileEntry;
    if NamesFit(records) {
      var files := FilesOf(records);
      var z: nat := |s| - n * ENTRY;
      assert s == Entries(files, n) + Zeros(z);
      assert SliceAssign(s, n * ENTRY, n * ENTRY + ENTRY, e)
             == Entries(files, n) + e + Zeros(if n < MAX_FILES then z - ENTRY else 0);
    }
  }

  /** With at most 4096 blocks in use every field of an entry fits 32 bits. */
  lemma FieldsFit(files: seq<File>, i: nat)
    requires i < |files| && FirstBlock(files, |files|) <= MAX_BLOCKS
    ensures |files[i].data| < UINT32 && FirstBlock(files, i) < UINT32 && BlocksFor(|files[i].data|) < UINT32
  {
    hide FirstBlock, BlocksFor;
    DataInside(files, i, MAX_BLOCKS);
  }

  /** Where file n goes lies inside the partition. */
  lemma DataInside(files: seq<File>, n: nat, blockCount: nat)
    requires n < |files| && FirstBlock(files, |files|) <= blockCount
    ensures FirstBlock(files, n) + BlocksFor(|files[n].data|) == FirstBlock(files, n + 1) <= blockCount
    ensures FirstBlock(files, n) * BLOCK + |files[n].data| <= blockCount * BLOCK
  {
    FirstBlockMonotone(files, n + 1, |files|);
    BlocksForBound(|files[n].data|);
    hide BlocksFor;
  }

  /** The four metadata blocks in place. */
  lemma HeaderPlaced(a: seq<byte>, b: seq<byte>, c: seq<byte>, d: seq<byte>, rest: nat)
    requires |a| == |b| == |c| == BLOCK && |d| >= BLOCK
    ensures var s0 := Zeros(4 * BLOCK + rest);
            var s1 := SliceAssign(s0, 0, BLOCK, a);
            var s2 := SliceAssign(s1, BLOCK, 2 * BLOCK, b);
            var s3 := SliceAssign(s2, 2 * BLOCK, 3 * BLOCK, c);
            SliceAssign(s3, 3 * BLOCK, 4 * BLOCK, d) == a + b + c + d + Zeros(rest)
  {
    var s0 := Zeros(4 * BLOCK + rest);
    var s1 := SliceAssign(s0, 0, BLOCK, a);
    assert s1 == a + Zeros(3 * BLOCK + rest);
    var s2 := SliceAssign(s1, BLOCK, 2 * BLOCK, b);
    assert s2 == a + b + Zeros(2 * BLOCK + rest);
    var s3 := SliceAssign(s2, 2 * BLOCK, 3 * BLOCK, c);
    assert s3 == a + b + c + Zeros(BLOCK + rest);
  }

  lemma AssignOverZeros(front: seq<byte>, d: seq<byte>, z: nat, pad: nat)
    requires |d| + pad <= z
    ensures SliceAssign(front + Zeros(z), |front|, |front| + |d|, d) == front + d + Zeros(pad) + Zeros(z - |d| - pad)
  {
  }

  /** File n's contents replace zeros right after the data laid down so far. */
  lemma NextData(s: seq<byte>, header: seq<byte>, files: seq<File>, n: nat, blockCount: nat)
    requires n < |files| && |header| == 4 * BLOCK && FirstBlock(files, n + 1) <= blockCount
    requires Laid(s, header, files, n, blockCount)
    ensures var at := FirstBlock(files, n) * BLOCK;
            Laid(SliceAssign(s, at, at + |files[n].data|, files[n].data), header, files, n + 1, blockCount)
  {
    var d := files[n].data;
    var pad := BlocksFor(|d|) * BLOCK - |d|;
    AssignOverZeros(header + DataBlocks(files, n), d, (blockCount - FirstBlock(files, n)) * BLOCK, pad);
    assert header + DataBlocks(files, n) + d + Zeros(pad) == header + DataBlocks(files, n + 1);
  }

  // ----- The self-check count ---------------------------------------------------

  /** Marked blocks from 4 up to n. */
  ghost function MarkedData(bitmap: seq<byte>, n: nat): nat
    requires |bitmap| == BLOCK && n <= MAX_BLOCKS
  {
    if n <= 4 then 0
    else MarkedData(bitmap, n - 1) + if Bit(bitmap[(n - 1) / 8], (n - 1) % 8) then 1 else 0
  }

  /** The self-check's count. Past 4096 sectors it reads beyond the bitmap block, an index error, though
      the partition itself may have been built and written. */
  method CountDataBlocks(image: seq<byte>, partSectors: nat) returns (r: Option<nat>)
    requires |image| >= 2 * BLOCK
    ensures r.None? <==> partSectors > MAX_BLOCKS
    ensures r.Some? ==> r.value == MarkedData(image[BLOCK..2 * BLOCK], partSectors)
  {
    var bitmap := image[BLOCK..2 * BLOCK];
    var count: nat := 0;
    var i: nat := 4;
    while i < partSectors
      invariant 4 <= i <= MAX_BLOCKS && (i <= partSectors || partSectors < 4)
      invariant count == MarkedData(bitmap, if i <= partSectors then i else partSectors)
    {
      if i / 8 >= |bitmap| {
        return None;
      }
      AndBit(bitmap[i / 8], i % 8);
      if And(bitmap[i / 8], Pow2(i % 8)) != 0 {
        count := count + 1;
      }
      i := i + 1;
    }
    return Some(count);
  }

  /** The count printed by the self-check is the sum of the files' block counts. */
  lemma {:induction false} SelfCheckExact(bitmap: seq<byte>, files: seq<File>, n: nat)
    requires MarksFirst(bitmap, FirstBlock(files, |files|)) && n <= MAX_BLOCKS
    ensures MarkedData(bitmap, n)
            == if n <= 4 then 0 else if n <= FirstBlock(files, |files|) then n - 4 else TotalBlocks(files)
  {
    TotalIsPacked(files);
    if n > 4 {
      SelfCheckExact(bitmap, files, n - 1);
    }
  }

  lemma BinName()
    ensures IsAscii("bin") && AsciiBytes("bin") == BIN
  {
  }

  lemma ZeroBits()
    ensures forall b :: 0 <= b < MAX_BLOCKS ==> !Bit(Zeros(BLOCK)[b / 8], b % 8)
  {
    forall b | 0 <= b < MAX_BLOCKS
      ensures !Bit(Zeros(BLOCK)[b / 8], b % 8)
    {
      NoHighBit(0, 0, b % 8);
    }
  }
}
