/** The AIkFS partition format: what a partition holding given files looks like, byte for byte. */
module FsImage {
  import opened Bytes
  import opened Bits

  const BLOCK: nat := 512
  const ENTRY: nat := 32
  const NAME_LEN: nat := 16
  const MAX_FILES: nat := 16
  const MAX_BLOCKS: nat := 4096
  const KIND_FILE: byte := 1
  const KIND_DIR: byte := 2

  /** A stored file: the encoded name and the contents. */
  datatype File = File(name: seq<byte>, data: seq<byte>)

  /** Blocks needed for n bytes. */
  function BlocksFor(n: nat): nat {
    (n + BLOCK - 1) / BLOCK
  }

  lemma BlocksForBound(n: nat)
    ensures n <= BlocksFor(n) * BLOCK < n + BLOCK
  {
  }

  /** First block of file i: files are packed from block 4 in the order they were added. */
  function FirstBlock(files: seq<File>, i: nat): (b: nat)
    requires i <= |files|
    ensures b >= 4
  {
    if i == 0 then 4 else FirstBlock(files, i - 1) + BlocksFor(|files[i - 1].data|)
  }

  ghost predicate InExtent(files: seq<File>, i: nat, block: nat)
    requires i < |files|
  {
    FirstBlock(files, i) <= block < FirstBlock(files, i) + BlocksFor(|files[i].data|)
  }

  /** A 32-byte directory entry. */
  function DirEntry(name: seq<byte>, kind: byte, size: nat, first: nat, count: nat): (e: seq<byte>)
    requires |name| <= NAME_LEN
    ensures |e| == ENTRY
  {
    name + Zeros(NAME_LEN - |name|) + [kind] + ToLE(size, 4) + ToLE(first, 4) + ToLE(count, 4) + Zeros(3)
  }

  function FileEntry(files: seq<File>, i: nat): (e: seq<byte>)
    requires i < |files| && |files[i].name| <= NAME_LEN
    ensures |e| == ENTRY
  {
    DirEntry(files[i].name, KIND_FILE, |files[i].data|, FirstBlock(files, i), BlocksFor(|files[i].data|))
  }

  ghost predicate ShortNames(files: seq<File>) {
    forall i :: 0 <= i < |files| ==> |files[i].name| <= NAME_LEN
  }

  /** The entries of the first n files, one after the other. */
  function Entries(files: seq<File>, n: nat): (s: seq<byte>)
    requires n <= |files| && forall i :: 0 <= i < |files| ==> |files[i].name| <= NAME_LEN
    ensures |s| == n * ENTRY
  {
    if n == 0 then [] else Entries(files, n - 1) + FileEntry(files, n - 1)
  }

  /** The data blocks of the first n files, each padded to whole blocks. */
  function DataBlocks(files: seq<File>, n: nat): (s: seq<byte>)
    requires n <= |files|
    ensures |s| == (FirstBlock(files, n) - 4) * BLOCK
  {
    if n == 0 then []
    else
      var d := files[n - 1].data;
      DataBlocks(files, n - 1) + d + Zeros(BlocksFor(|d|) * BLOCK - |d|)
  }

  const MAGIC: seq<byte> := [65, 73, 107, 70, 83, 49]

  function Superblock(blockCount: nat): (s: seq<byte>)
    ensures |s| == BLOCK
  {
    MAGIC + [1, 0] + ToLE(blockCount, 4) + ToLE(1, 4) + ToLE(1, 4) + ToLE(2, 4) + Zeros(488)
  }

  const BIN: seq<byte> := [98, 105, 110]

  function RootDir(): (s: seq<byte>)
    ensures |s| == BLOCK
  {
    DirEntry(BIN, KIND_DIR, BLOCK, 3, 1) + Zeros(BLOCK - ENTRY)
  }

  function BinDir(files: seq<File>): (s: seq<byte>)
    requires |files| <= MAX_FILES && ShortNames(files)
    ensures |s| == BLOCK
  {
    Entries(files, |files|) + Zeros(BLOCK - |files| * ENTRY)
  }

  /** The whole partition, given its bitmap block. */
  function Image(blockCount: nat, bitmap: seq<byte>, files: seq<File>): (s: seq<byte>)
    requires |files| <= MAX_FILES && ShortNames(files) && |bitmap| == BLOCK
    requires FirstBlock(files, |files|) <= blockCount
    ensures |s| == blockCount * BLOCK
  {
    Superblock(blockCount) + bitmap + RootDir() + BinDir(files)
    + DataBlocks(files, |files|) + Zeros((blockCount - FirstBlock(files, |files|)) * BLOCK)
  }

  /** Bit i of the bitmap block is set exactly for the first n blocks. */
  ghost predicate MarksFirst(bitmap: seq<byte>, n: nat) {
    |bitmap| == BLOCK && forall i :: 0 <= i < MAX_BLOCKS ==> (Bit(bitmap[i / 8], i % 8) <==> i < n)
  }

  // ----- Layout -------------------------------------------------------------

  lemma {:induction false} FirstBlockMonotone(files: seq<File>, i: nat, j: nat)
    requires i <= j <= |files|
    ensures FirstBlock(files, i) <= FirstBlock(files, j)
    decreases j - i
  {
    if i < j {
      FirstBlockMonotone(files, i, j - 1);
    }
  }

  /** No block belongs to two files. */
  lemma ExtentsDisjoint(files: seq<File>, i: nat, j: nat, block: nat)
    requires i < |files| && j < |files| && InExtent(files, i, block) && InExtent(files, j, block)
    ensures i == j
  {
    if i < j {
      FirstBlockMonotone(files, i + 1, j);
    } else if j < i {
      FirstBlockMonotone(files, j + 1, i);
    }
  }

  /** The file a data block belongs to. */
  lemma {:induction false} BlockHasFile(files: seq<File>, n: nat, block: nat) returns (i: nat)
    requires n <= |files| && 4 <= block < FirstBlock(files, n)
    ensures i < n && InExtent(files, i, block)
  {
    if block >= FirstBlock(files, n - 1) {
      i := n - 1;
    } else {
      i := BlockHasFile(files, n - 1, block);
    }
  }

  /** A marked block is one of the four metadata blocks or lies in exactly one file's extent. */
  lemma BitmapExact(bitmap: seq<byte>, files: seq<File>, block: nat)
    requires MarksFirst(bitmap, FirstBlock(files, |files|)) && block < MAX_BLOCKS
    ensures Bit(bitmap[block / 8], block % 8) <==>
              block < 4 || exists i :: 0 <= i < |files| && InExtent(files, i, block)
    ensures forall i, j :: 0 <= i < |files| && 0 <= j < |files| && InExtent(files, i, block) && InExtent(files, j, block)
              ==> i == j
    ensures block < 4 ==> forall i :: 0 <= i < |files| ==> !InExtent(files, i, block)
  {
    forall i, j | 0 <= i < |files| && 0 <= j < |files| && InExtent(files, i, block) && InExtent(files, j, block)
      ensures i == j
    {
      ExtentsDisjoint(files, i, j, block);
    }
    forall i | 0 <= i < |files| && InExtent(files, i, block)
      ensures 4 <= block < FirstBlock(files, |files|)
    {
      FirstBlockMonotone(files, i + 1, |files|);
    }
    if 4 <= block < FirstBlock(files, |files|) {
      var i := BlockHasFile(files, |files|, block);
    }
  }

  /** The sum of the files' block counts. */
  ghost function TotalBlocks(files: seq<File>): nat {
    if files == [] then 0 else TotalBlocks(files[..|files| - 1]) + BlocksFor(|files[|files| - 1].data|)
  }

  lemma {:induction false} FirstBlockPrefix(files: seq<File>, more: seq<File>, i: nat)
    requires i <= |files|
    ensures FirstBlock(files + more, i) == FirstBlock(files, i)
  {
    if i > 0 {
      FirstBlockPrefix(files, more, i - 1);
    }
  }

  lemma {:induction false} TotalIsPacked(files: seq<File>)
    ensures FirstBlock(files, |files|) == 4 + TotalBlocks(files)
  {
    if files != [] {
      var front := files[..|files| - 1];
      TotalIsPacked(front);
      FirstBlockPrefix(front, files[|files| - 1..], |front|);
      assert front + files[|files| - 1..] == files;
    }
  }

  // ----- Where things are ----------------------------------------------------

  lemma SixParts(a: seq<byte>, b: seq<byte>, c: seq<byte>, d: seq<byte>, e: seq<byte>, z: seq<byte>)
    requires |a| == |b| == |c| == |d| == BLOCK
    ensures var s := a + b + c + d + e + z;
            && s[..BLOCK] == a && s[3 * BLOCK..4 * BLOCK] == d && s[4 * BLOCK..][..|e|] == e
            && s[..4 * BLOCK] == a + b + c + d
  {
    assert a + b + c + d + e + z == a + (b + c + d + e + z);
    assert a + b + c + d + e + z == (a + b + c) + (d + (e + z));
    assert a + b + c + d + e + z == (a + b + c + d) + (e + z);
  }

  lemma ImageParts(blockCount: nat, bitmap: seq<byte>, files: seq<File>)
    requires |files| <= MAX_FILES && ShortNames(files) && |bitmap| == BLOCK
    requires FirstBlock(files, |files|) <= blockCount
    ensures var s := Image(blockCount, bitmap, files);
            && |s| >= 4 * BLOCK
            && s[..BLOCK] == Superblock(blockCount)
            && s[..4 * BLOCK] == Superblock(blockCount) + bitmap + RootDir() + BinDir(files)
            && s[3 * BLOCK..4 * BLOCK] == BinDir(files)
            && |s[4 * BLOCK..]| >= |DataBlocks(files, |files|)|
            && s[4 * BLOCK..][..|DataBlocks(files, |files|)|] == DataBlocks(files, |files|)
  {
    hide Superblock, RootDir, BinDir, DataBlocks, FirstBlock, ToLE;
    SixParts(Superblock(blockCount), bitmap, RootDir(), BinDir(files), DataBlocks(files, |files|),
             Zeros((blockCount - FirstBlock(files, |files|)) * BLOCK));
  }

  lemma SliceOfFront(a: seq<byte>, b: seq<byte>, i: nat, j: nat)
    requires i <= j <= |a|
    ensures (a + b)[i..j] == a[i..j]
  {
  }

  lemma SliceOfNext(a: seq<byte>, b: seq<byte>, c: seq<byte>)
    ensures (a + b + c)[|a|..|a| + |b|] == b
    ensures (a + b)[|a|..|a| + |b|] == b
  {
  }

  lemma {:induction false} EntryAt(files: seq<File>, n: nat, i: nat)
    requires i < n <= |files| && ShortNames(files)
    ensures i * ENTRY + ENTRY <= n * ENTRY
    ensures Entries(files, n)[i * ENTRY..i * ENTRY + ENTRY] == FileEntry(files, i)
  {
    hide FileEntry;
    if i < n - 1 {
      EntryAt(files, n - 1, i);
      SliceOfFront(Entries(files, n - 1), FileEntry(files, n - 1), i * ENTRY, i * ENTRY + ENTRY);
    } else {
      SliceOfNext(Entries(files, n - 1), FileEntry(files, n - 1), []);
    }
  }

  lemma {:induction false} DataAt(files: seq<File>, n: nat, i: nat)
    requires i < n <= |files|
    ensures var start := (FirstBlock(files, i) - 4) * BLOCK;
            && start + |files[i].data| <= |DataBlocks(files, n)|
            && DataBlocks(files, n)[start..start + |files[i].data|] == files[i].data
  {
    var start := (FirstBlock(files, i) - 4) * BLOCK;
    var d := files[n - 1].data;
    var front, pad := DataBlocks(files, n - 1), Zeros(BlocksFor(|d|) * BLOCK - |d|);
    assert DataBlocks(files, n) == front + d + pad;
    hide DataBlocks;
    if i < n - 1 {
      DataAt(files, n - 1, i);
      SliceOfFront(front, d + pad, start, start + |files[i].data|);
      assert front + d + pad == front + (d + pad);
    } else {
      SliceOfNext(front, d, pad);
    }
  }
}
