/** The read-only AIkFS driver over the partition image in memory. */
module FsDriver {
  import opened Wrappers
  import opened Machine
  import opened Bytes
  import opened FsImage
  import opened PmmSpec
  import opened BuddyState
  import opened Chains
  import opened Heap
  import opened HeapMemory
  import Tiling

  // ----- C strings -----------------------------------------------------------

  /** A C string is its bytes before the terminator. */
  ghost predicate NulFree(s: seq<byte>) {
    forall i :: 0 <= i < |s| ==> s[i] != 0
  }

  /** Reading a C string: the terminator may be read, nothing after it. */
  function CharAt(s: seq<byte>, i: nat): byte
    requires i <= |s|
  {
    if i < |s| then s[i] else 0
  }

  // ----- Directory lookup -----------------------------------------------------

  /** The first 16 bytes of a query, all that a lookup compares. */
  function Compared(name: seq<byte>): seq<byte> {
    if |name| < NAME_LEN then name else name[..NAME_LEN]
  }

  /** Bytes before the first zero. */
  function UpToNul(s: seq<byte>): seq<byte> {
    if s == [] || s[0] == 0 then [] else [s[0]] + UpToNul(s[1..])
  }

  lemma {:induction false} UpToNulIs(s: seq<byte>, j: nat)
    requires j <= |s| && (forall k :: 0 <= k < j ==> s[k] != 0) && (j < |s| ==> s[j] == 0)
    ensures UpToNul(s) == s[..j]
  {
    if j > 0 {
      UpToNulIs(s[1..], j - 1);
      assert [s[0]] + s[1..][..j - 1] == s[..j];
    }
  }

  lemma {:induction false} UpToNulPrefix(s: seq<byte>)
    ensures |UpToNul(s)| <= |s| && UpToNul(s) == s[..|UpToNul(s)|] && NulFree(UpToNul(s))
    ensures |UpToNul(s)| < |s| ==> s[|UpToNul(s)|] == 0
  {
    if s != [] && s[0] != 0 {
      UpToNulPrefix(s[1..]);
    }
  }

  /** The name in an entry's 16-byte field is exactly the compared part of a query. */
  ghost predicate FieldMatches(entry: seq<byte>, name: seq<byte>)
    requires |entry| >= NAME_LEN
  {
    UpToNul(entry[..NAME_LEN]) == Compared(name)
  }

  /** As C compares: the field and the name agree up to byte n, and either all 16 bytes agree or both
      strings end there. */
  lemma FieldMatchesExactly(entry: seq<byte>, name: seq<byte>)
    requires |entry| >= 16 && NulFree(name)
    ensures FieldMatches(entry, name) <==>
              exists n :: 0 <= n <= 16 && n <= |name| && entry[..n] == name[..n] && (n < 16 ==> n == |name| && entry[n] == 0)
  {
    var field := entry[..NAME_LEN];
    UpToNulPrefix(field);
    if FieldMatches(entry, name) {
      var n := |UpToNul(field)|;
      assert entry[..n] == field[..n] == name[..n];
    }
    if n :| 0 <= n <= 16 && n <= |name| && entry[..n] == name[..n] && (n < 16 ==> n == |name| && entry[n] == 0) {
      assert field[..n] == entry[..n];
      UpToNulIs(field, n);
    }
  }

  function EntryOf(dir: seq<byte>, i: nat): (e: seq<byte>)
    requires |dir| == BLOCK && i < MAX_FILES
    ensures |e| == ENTRY
  {
    dir[i * ENTRY..i * ENTRY + ENTRY]
  }

  /** The first matching entry before the first empty one. */
  ghost predicate FoundAt(dir: seq<byte>, name: seq<byte>, i: nat)
    requires |dir| == BLOCK
  {
    && i < MAX_FILES && FieldMatches(EntryOf(dir, i), name)
    && (forall k :: 0 <= k <= i ==> EntryOf(dir, k)[0] != 0)
    && forall k :: 0 <= k < i ==> !FieldMatches(EntryOf(dir, k), name)
  }

  datatype DirInfo = DirInfo(kind: byte, size: nat, first: nat, count: nat)

  function InfoOf(entry: seq<byte>): DirInfo
    requires |entry| == ENTRY
  {
    DirInfo(entry[16], ReadU32(entry, 17), ReadU32(entry, 21), ReadU32(entry, 25))
  }

  /** Comparing byte by byte, stopping at a common terminator. */
  method NameMatches(entry: seq<byte>, name: seq<byte>) returns (matched: bool)
    requires |entry| == ENTRY && NulFree(name)
    ensures matched <==> FieldMatches(entry, name)
  {
    ghost var field, want := entry[..NAME_LEN], Compared(name);
    UpToNulPrefix(field);
    var j := 0;
    while j < NAME_LEN
      invariant j <= NAME_LEN && j <= |name|
      invariant forall k :: 0 <= k < j ==> field[k] == name[k] != 0
    {
      var c1, c2 := entry[j], CharAt(name, j);
      if c1 == 0 && c2 == 0 {
        UpToNulIs(field, j);
        assert field[..j] == want;
        return true;
      }
      if c1 != c2 {
        Differ(field, want, name, j);
        return false;
      }
      j := j + 1;
    }
    UpToNulIs(field, NAME_LEN);
    assert field[..NAME_LEN] == want;
    return true;
  }

  /** The first difference decides. */
  lemma Differ(field: seq<byte>, want: seq<byte>, name: seq<byte>, j: nat)
    requires |field| == NAME_LEN && want == Compared(name) && NulFree(name)
    requires j < NAME_LEN && j <= |name| && field[j] != CharAt(name, j)
    requires forall k :: 0 <= k < j ==> field[k] == name[k]
    ensures UpToNul(field) != want
  {
    UpToNulPrefix(field);
  }

  /** find_dir_entry: the first match before the first empty slot. */
  method FindDirEntry(dir: seq<byte>, name: seq<byte>) returns (r: Option<DirInfo>)
    requires |dir| == BLOCK && NulFree(name)
    ensures r.Some? ==> exists i :: 0 <= i < MAX_FILES && FoundAt(dir, name, i) && r.value == InfoOf(EntryOf(dir, i))
    ensures r.None? ==> forall i :: 0 <= i < MAX_FILES ==> !FoundAt(dir, name, i)
  {
    var i := 0;
    while i < MAX_FILES
      invariant i <= MAX_FILES
      invariant forall k :: 0 <= k < i ==> EntryOf(dir, k)[0] != 0 && !FieldMatches(EntryOf(dir, k), name)
    {
      var entry := EntryOf(dir, i);
      if entry[0] == 0 {
        return None;
      }
      var matched := NameMatches(entry, name);
      if matched {
        assert FoundAt(dir, name, i);
        return Some(InfoOf(entry));
      }
      i := i + 1;
    }
    return None;
  }

  // ----- The driver --------------------------------------------------------------

  /** Byte offset of a block from the ramdisk base, in 32-bit arithmetic. */
  function BlockOffset(block: nat): nat {
    block * BLOCK % UINT32
  }

  const BIN_DIR_BLOCK: nat := 3
  const DISK_LIMIT: nat := 0x800_0000

  /** The bytes a found file's copy loop fills: no more than its blocks hold. */
  function Copied(info: DirInfo): nat {
    if info.size <= info.count * BLOCK then info.size else info.count * BLOCK
  }

  ghost function BinDirOf(disk: seq<byte>): seq<byte>
    requires |disk| >= 4 * BLOCK
  {
    disk[3 * BLOCK..4 * BLOCK]
  }

  /** Every file entry's extent lies on the disk. */
  ghost predicate ExtentsInside(disk: seq<byte>) {
    && 4 * BLOCK <= |disk| <= DISK_LIMIT
    && forall i :: 0 <= i < MAX_FILES ==>
         var info := InfoOf(EntryOf(BinDirOf(disk), i));
         info.kind == KIND_FILE ==> (info.first + info.count) * BLOCK <= |disk|
  }

  /** The query part of a path under bin/, if it is one. */
  ghost function Query(path: seq<byte>): Option<seq<byte>> {
    if |path| > 4 && path[..4] == BIN + [47] then Some(path[4..]) else None
  }

  /** What a path names: the matching bin entry, when it is a file. */
  ghost predicate Names(disk: seq<byte>, path: seq<byte>, info: DirInfo)
    requires |disk| >= 4 * BLOCK
  {
    Query(path).Some?
    && exists i :: 0 <= i < MAX_FILES && FoundAt(BinDirOf(disk), Query(path).value, i)
                   && info == InfoOf(EntryOf(BinDirOf(disk), i)) && info.kind == KIND_FILE
  }

  /** What a path names: it starts with bin/, an entry of block 3 has the name that follows and is a
      file, and no entry up to it is empty or, before it, has that name. */
  lemma NamesExactly(disk: seq<byte>, path: seq<byte>, info: DirInfo)
    requires |disk| >= 2048
    ensures Names(disk, path, info) <==>
              && |path| > 4 && path[..4] == [98, 105, 110, 47]
              && exists i: nat ::
                   && i < 16 && FieldMatches(EntryOf(disk[1536..2048], i), path[4..])
                   && (forall k :: 0 <= k <= i ==> EntryOf(disk[1536..2048], k)[0] != 0)
                   && (forall k :: 0 <= k < i ==> !FieldMatches(EntryOf(disk[1536..2048], k), path[4..]))
                   && var e := EntryOf(disk[1536..2048], i);
                   && e[16] == 1 && info == DirInfo(1, ReadU32(e, 17), ReadU32(e, 21), ReadU32(e, 25))
  {
    hide FieldMatches, EntryOf, ReadU32;
    assert BIN + [47] == [98, 105, 110, 47];
    if |path| > 4 && path[..4] == BIN + [47] {
      forall i: nat | i < 16 && FieldMatches(EntryOf(disk[1536..2048], i), path[4..])
        ensures FoundAt(BinDirOf(disk), path[4..], i) <==>
                  && (forall k :: 0 <= k <= i ==> EntryOf(disk[1536..2048], k)[0] != 0)
                  && (forall k :: 0 <= k < i ==> !FieldMatches(EntryOf(disk[1536..2048], k), path[4..]))
      {
      }
    }
  }

  lemma NamesOnce(disk: seq<byte>, path: seq<byte>, a: DirInfo, b: DirInfo)
    requires |disk| >= 4 * BLOCK && Names(disk, path, a) && Names(disk, path, b)
    ensures a == b
  {
    var q := Query(path).value;
    var i :| 0 <= i < MAX_FILES && FoundAt(BinDirOf(disk), q, i) && a == InfoOf(EntryOf(BinDirOf(disk), i));
    var j :| 0 <= j < MAX_FILES && FoundAt(BinDirOf(disk), q, j) && b == InfoOf(EntryOf(BinDirOf(disk), j));
    assert i == j;
  }

  class Driver {
    const disk: seq<byte>
    var blockCount: nat
    var rootDirBlock: nat
    var binDirBlock: nat
    var initialized: bool

    constructor (ramdisk: seq<byte>)
      ensures disk == ramdisk && !initialized
    {
      disk := ramdisk;
      blockCount, rootDirBlock, binDirBlock, initialized := 0, 0, 0, false;
    }

    ghost predicate Valid()
      reads this
    {
      ExtentsInside(disk) && (initialized ==> binDirBlock == BIN_DIR_BLOCK)
    }

    /** fs_init: check magic and version, read the superblock. */
    method Init()
      requires |disk| >= 4 * BLOCK
      modifies this
      ensures initialized <==> disk[..6] == MAGIC && disk[6] == 1
      ensures initialized ==> blockCount == ReadU32(disk, 8) && rootDirBlock == ReadU32(disk, 20)
                              && binDirBlock == BIN_DIR_BLOCK
      ensures old(Valid()) ==> Valid()
    {
      var ok, i := true, 0;
      while i < 6
        invariant i <= 6 && (ok <==> disk[..i] == MAGIC[..i])
      {
        assert disk[..i + 1] == disk[..i] + [disk[i]] && MAGIC[..i + 1] == MAGIC[..i] + [MAGIC[i]];
        if disk[i] != MAGIC[i] {
          ok := false;
          assert disk[..6][i] != MAGIC[i];
          break;
        }
        i := i + 1;
      }
      assert ok ==> MAGIC[..6] == MAGIC;
      if !ok || disk[6] != 1 {
        initialized := false;
        return;
      }
      blockCount := ReadU32(disk, 8);
      rootDirBlock := ReadU32(disk, 20);
      binDirBlock := 3;
      initialized := true;
    }

    /** fs_read: the path's file in heap memory, or -1. No byte of what was live before is written. */
    method Read(path: seq<byte>, m: Memory) returns (rc: int, pointer: nat, size: nat, ghost info: DirInfo)
      requires Valid() && m.Valid() && NulFree(path)
      modifies m.heap, m.heap.freeLists, m.heap.headers, m.heap.pmm, m.heap.pmm.bitmap, m.rest
      ensures m.Valid()
      ensures rc == 0 || rc == -1
      ensures rc == 0 ==>
                && initialized && Names(disk, path, info) && size == info.size < UINT32
                && pointer != 0 && Result(pointer, m.heap.Abs()) == BuddyState.Kmalloc(old(m.heap.Abs()), size)
                && (info.first + info.count) * BLOCK <= |disk| && pointer + size <= MEMORY
                && m.Bytes(pointer, size)[..Copied(info)] == disk[info.first * BLOCK..info.first * BLOCK + Copied(info)]
      ensures rc == -1 ==> m.heap.Abs() == old(m.heap.Abs())
      ensures rc == -1 && initialized ==>
                forall i :: Names(disk, path, i) ==> BuddyState.Kmalloc(old(m.heap.Abs()), i.size).pointer == 0
      ensures forall a :: 0 <= a < MEMORY && a / PAGE_SIZE in LivePages(old(m.heap.Abs())) ==> m.At(a) == old(m.At(a))
    {
      hide Names, Inv, Linked, ExtentsInside, BuddyState.Kmalloc, LivePages, MayWrite, InPayload, HeaderBytes;
      ghost var was := m.heap.Abs();
      pointer, size, info := 0, 0, DirInfo(0, 0, 0, 0);
      InvShape(was);
      if !initialized {
        return -1, 0, 0, info;
      }
      var found := Lookup(path);
      if found.None? {
        return -1, 0, 0, info;
      }
      info := found.value;
      NamedInside(disk, path, info);
      NamesUnique(disk, path, info);
      FailedChangesNothing(was, info.size);
      NewPayload(was, info.size);
      size := found.value.size;
      pointer := m.Kmalloc(size);
      if pointer == 0 {
        return -1, 0, 0, info;
      }
      InsideMemory(m.heap.Abs(), pointer, size);
      CopyBlocks(m, pointer, found.value);
      rc := 0;
    }

    /** The path and directory part of fs_read. */
    method Lookup(path: seq<byte>) returns (r: Option<DirInfo>)
      requires Valid() && initialized && NulFree(path)
      ensures r.Some? ==> Names(disk, path, r.value) && r.value.size < UINT32
      ensures r.None? ==> forall i :: !Names(disk, path, i)
    {
      if CharAt(path, 0) != BIN[0] || CharAt(path, 1) != BIN[1] || CharAt(path, 2) != BIN[2] || CharAt(path, 3) != 47 {
        return None;
      }
      var filename := path[4..];
      if CharAt(filename, 0) == 0 {
        return None;
      }
      assert path[..4] == BIN + [47];
      var dir := disk[BlockOffset(binDirBlock)..BlockOffset(binDirBlock) + BLOCK];
      assert BlockOffset(BIN_DIR_BLOCK) == 3 * BLOCK;
      assert dir == BinDirOf(disk);
      r := FindDirEntry(dir, filename);
      if r.Some? {
        if r.value.kind != KIND_FILE {
          NotAFile(disk, path, r.value);
          return None;
        }
        ghost var i :| 0 <= i < MAX_FILES && FoundAt(dir, filename, i) && r.value == InfoOf(EntryOf(dir, i));
        ReadU32IsLE(EntryOf(dir, i), 17);
      }
    }

    /** The inner copy loop: n bytes of the disk to an address. */
    method CopyBlock(m: Memory, to: nat, from: nat, n: nat)
      requires m.Valid() && from + n <= |disk| && forall a :: to <= a < to + n ==> MayWrite(m.heap.Abs(), a)
      modifies m.heap.headers, m.rest
      ensures m.Valid() && m.heap.Abs() == old(m.heap.Abs())
      ensures forall a :: 0 <= a < MEMORY ==>
                            m.At(a) == if to <= a < to + n then disk[from + (a - to)] else old(m.At(a))
    {
      hide MayWrite, BuddyHeap.Valid, Memory.At;
      var i: nat := 0;
      while i < n
        invariant i <= n && m.Valid() && m.heap.Abs() == old(m.heap.Abs())
        invariant forall a :: 0 <= a < MEMORY ==>
                                m.At(a) == if to <= a < to + i then disk[from + (a - to)] else old(m.At(a))
      {
        m.Store(to + i, disk[from + i]);
        i := i + 1;
      }
    }

    /** The copy loop over the file's blocks. */
    method CopyBlocks(m: Memory, pointer: nat, info: DirInfo)
      requires m.Valid() && forall a :: pointer <= a < pointer + info.size ==> MayWrite(m.heap.Abs(), a)
      requires |disk| <= DISK_LIMIT && (info.first + info.count) * BLOCK <= |disk| && pointer + info.size <= MEMORY
      modifies m.heap.headers, m.rest
      ensures m.Valid() && m.heap.Abs() == old(m.heap.Abs())
      ensures m.Bytes(pointer, info.size)[..Copied(info)]
              == disk[info.first * BLOCK..info.first * BLOCK + Copied(info)]
      ensures forall a :: 0 <= a < MEMORY && !(pointer <= a < pointer + info.size) ==> m.At(a) == old(m.At(a))
    {
      hide MayWrite, BuddyHeap.Valid, Memory.At;
      var copied: nat, b: nat := 0, 0;
      ghost var base := info.first * BLOCK;
      while b < info.count
        invariant b <= info.count && copied == b * BLOCK <= info.size
        invariant m.Valid() && m.heap.Abs() == old(m.heap.Abs()) && base + copied <= |disk|
        invariant forall a :: 0 <= a < MEMORY ==>
                                m.At(a) == if pointer <= a < pointer + copied then disk[base + (a - pointer)] else old(m.At(a))
      {
        var src := BlockOffset(info.first + b);
        assert src == base + copied;
        var toCopy: nat := BLOCK;
        if copied + toCopy > info.size {
          toCopy := info.size - copied;
        }
        CopyBlock(m, pointer + copied, src, toCopy);
        copied := copied + toCopy;
        if copied >= info.size {
          break;
        }
        b := b + 1;
      }
      assert copied == Copied(info);
    }
  }

  /** The last byte of a new payload lies in memory. */
  lemma InsideMemory(st: State, pointer: nat, size: nat)
    requires size > 0 && forall a :: pointer <= a < pointer + size ==> MayWrite(st, a)
    ensures pointer + size <= MEMORY
  {
    assert MayWrite(st, pointer + size - 1);
  }

  lemma NotAFile(disk: seq<byte>, path: seq<byte>, info: DirInfo)
    requires |disk| >= 4 * BLOCK && Query(path).Some? && info.kind != KIND_FILE
    requires exists i :: 0 <= i < MAX_FILES && FoundAt(BinDirOf(disk), Query(path).value, i)
                         && info == InfoOf(EntryOf(BinDirOf(disk), i))
    ensures forall o :: !Names(disk, path, o)
  {
  }

  lemma NamesUnique(disk: seq<byte>, path: seq<byte>, info: DirInfo)
    requires |disk| >= 4 * BLOCK && Names(disk, path, info)
    ensures forall i :: Names(disk, path, i) ==> i == info
  {
    forall i | Names(disk, path, i)
      ensures i == info
    {
      NamesOnce(disk, path, i, info);
    }
  }

  lemma NamedInside(disk: seq<byte>, path: seq<byte>, info: DirInfo)
    requires ExtentsInside(disk) && Names(disk, path, info)
    ensures 4 * BLOCK <= |disk| <= DISK_LIMIT
    ensures (info.first + info.count) * BLOCK <= |disk|
  {
  }

  lemma FailedChangesNothing(st: State, size: nat)
    requires Inv(st)
    ensures |st.lists| == Tiling.MAX_ORDER + 1 && |st.bits| == PAGES
    ensures BuddyState.Kmalloc(st, size).pointer == 0 ==> BuddyState.Kmalloc(st, size).st == st
  {
    if size > 0 && PageCount(size) <= 1024 {
      OrderBound(PageCount(size));
      ObtainInv(st, OrderFor(PageCount(size)));
    }
  }
}
