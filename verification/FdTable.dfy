/** File descriptors: sixteen slots, each owning a heap buffer with a whole file in it. */
module FdTable {
  import opened Wrappers
  import opened Machine
  import opened Bytes
  import opened FsImage
  import opened FsDriver
  import opened PmmSpec
  import opened Tiling
  import opened BuddyState
  import opened Chains
  import opened Heap
  import opened HeapMemory

  const SLOTS: nat := 16
  const FIRST_FD: nat := 3
  const FD_ERROR: nat := 0xFFFF_FFFF

  /** A slot of the table, as the kernel keeps it: data points into heap memory. */
  datatype FileDesc = FileDesc(inUse: bool, size: nat, offset: nat, data: nat)

  const CLOSED: FileDesc := FileDesc(false, 0, 0, 0)

  /** A slot as its reader sees it: bytes is what heap memory holds at data. */
  datatype OpenFile = OpenFile(inUse: bool, size: nat, offset: nat, data: nat, bytes: seq<byte>)

  const BLANK: OpenFile := OpenFile(false, 0, 0, 0, [])

  /** A slot is closed and blank, or holds a file with the read position inside it. */
  ghost predicate WellKept(d: OpenFile) {
    if d.inUse then |d.bytes| == d.size && d.offset <= d.size && d.data % PAGE_SIZE == HEADER_SIZE
    else d == BLANK
  }

  predicate IsFd(fd: nat) {
    FIRST_FD <= fd < FIRST_FD + SLOTS
  }

  // ----- The table on values -----------------------------------------------------

  /** Every slot before i is taken, and i is free (or past the end). */
  ghost predicate FirstFree(t: seq<OpenFile>, i: nat) {
    i <= |t| && (forall k :: 0 <= k < i ==> t[k].inUse) && (i < |t| ==> !t[i].inUse)
  }

  /** How much a read of len bytes gets. */
  function Available(d: OpenFile, len: nat): nat {
    if d.offset >= d.size then 0 else if len < d.size - d.offset then len else d.size - d.offset
  }

  function Advance(d: OpenFile, n: nat): OpenFile {
    d.(offset := d.offset + n)
  }

  /** What clients do; Open carries the file fs_read produced, if it did. */
  datatype FdOp = Open(file: Option<OpenFile>) | Close(fd: nat) | Read(fd: nat, len: nat)

  ghost predicate Kept(t: seq<OpenFile>) {
    |t| == SLOTS && forall i :: 0 <= i < SLOTS ==> WellKept(t[i])
  }

  /** A freshly opened file. */
  ghost predicate IsFresh(op: FdOp) {
    op.Open? && op.file.Some? ==> WellKept(op.file.value) && op.file.value.inUse && op.file.value.offset == 0
  }

  ghost function FreeSlot(t: seq<OpenFile>, i: nat): (r: nat)
    requires i <= |t| && forall k :: 0 <= k < i ==> t[k].inUse
    ensures FirstFree(t, r)
    decreases |t| - i
  {
    if i == |t| || !t[i].inUse then i else FreeSlot(t, i + 1)
  }

  /** The slot a descriptor names, when it is in use. */
  ghost predicate Serves(t: seq<OpenFile>, fd: nat) {
    IsFd(fd) && fd - FIRST_FD < |t| && t[fd - FIRST_FD].inUse
  }

  ghost function Step(t: seq<OpenFile>, op: FdOp): seq<OpenFile> {
    match op
    case Open(file) =>
      var i := FreeSlot(t, 0);
      if file.Some? && i < |t| then t[i := file.value] else t
    case Close(fd) => if Serves(t, fd) then t[fd - FIRST_FD := BLANK] else t
    case Read(fd, len) =>
      if Serves(t, fd) then
        var d := t[fd - FIRST_FD];
        t[fd - FIRST_FD := Advance(d, Available(d, len))]
      else t
  }

  /** The bytes a step hands to the reader of fd. */
  ghost function Handed(t: seq<OpenFile>, op: FdOp, fd: nat): seq<byte>
    requires Kept(t)
  {
    if op.Read? && op.fd == fd && Serves(t, fd) then
      var d := t[fd - FIRST_FD];
      d.bytes[d.offset..d.offset + Available(d, op.len)]
    else []
  }

  ghost function Run(t: seq<OpenFile>, ops: seq<FdOp>): seq<OpenFile>
    decreases |ops|
  {
    if ops == [] then t else Run(Step(t, ops[0]), ops[1..])
  }

  /** Everything handed to the reader of fd over a run. */
  ghost function Delivered(t: seq<OpenFile>, ops: seq<FdOp>, fd: nat): seq<byte>
    requires Kept(t) && forall op :: op in ops ==> IsFresh(op)
    decreases |ops|
  {
    if ops == [] then []
    else
      StepKept(t, ops[0]);
      Handed(t, ops[0], fd) + Delivered(Step(t, ops[0]), ops[1..], fd)
  }

  lemma StepKept(t: seq<OpenFile>, op: FdOp)
    requires Kept(t) && IsFresh(op)
    ensures Kept(Step(t, op))
  {
  }

  /** A step changes at most the slot it names; an open never takes a slot in use. */
  lemma StepLocal(t: seq<OpenFile>, op: FdOp, i: nat)
    requires Kept(t) && i < SLOTS && t[i].inUse
    requires op != Close(FIRST_FD + i)
    ensures Step(t, op)[i].inUse && Step(t, op)[i].bytes == t[i].bytes && Step(t, op)[i].data == t[i].data
    ensures !(op.Read? && op.fd == FIRST_FD + i) ==> Step(t, op)[i] == t[i]
  {
  }

  /** Over every interleaving that does not close it, what a descriptor delivers is exactly the next
      stretch of its file, and its position is how far that got. */
  lemma {:induction false} ReadsConcatenate(t: seq<OpenFile>, ops: seq<FdOp>, i: nat)
    requires Kept(t) && i < SLOTS && t[i].inUse
    requires forall op :: op in ops ==> IsFresh(op) && op != Close(FIRST_FD + i)
    ensures var end := Run(t, ops);
            var got := Delivered(t, ops, FIRST_FD + i);
            && Kept(end) && end[i].inUse && end[i].bytes == t[i].bytes
            && end[i].offset == t[i].offset + |got| <= |t[i].bytes|
            && got == t[i].bytes[t[i].offset..end[i].offset]
    decreases |ops|
  {
    hide Step, Handed, Kept;
    OffsetInside(t, i);
    if ops != [] {
      var fd := FIRST_FD + i;
      var next := Step(t, ops[0]);
      StepKept(t, ops[0]);
      HandedIsNext(t, ops[0], i);
      ReadsConcatenate(next, ops[1..], i);
      OffsetInside(Run(next, ops[1..]), i);
      JoinSlices(t[i].bytes, t[i].offset, next[i].offset, Run(next, ops[1..])[i].offset);
    }
  }

  lemma OffsetInside(t: seq<OpenFile>, i: nat)
    requires Kept(t) && i < SLOTS && t[i].inUse
    ensures |t| == SLOTS && t[i].offset <= |t[i].bytes|
  {
    assert WellKept(t[i]);
  }

  lemma JoinSlices(s: seq<byte>, a: nat, b: nat, c: nat)
    requires a <= b <= c <= |s|
    ensures s[a..b] + s[b..c] == s[a..c]
  {
  }

  /** One step hands the reader of slot i exactly the bytes it moves past. */
  lemma HandedIsNext(t: seq<OpenFile>, op: FdOp, i: nat)
    requires Kept(t) && i < SLOTS && t[i].inUse && IsFresh(op) && op != Close(FIRST_FD + i)
    ensures var next := Step(t, op);
            && |next| == SLOTS && next[i].inUse && next[i].bytes == t[i].bytes
            && t[i].offset <= next[i].offset <= |t[i].bytes|
            && Handed(t, op, FIRST_FD + i) == t[i].bytes[t[i].offset..next[i].offset]
  {
    StepLocal(t, op, i);
    OffsetInside(t, i);
    assert WellKept(t[i]);
  }

  /** A read gets nothing exactly at the end of the file or when it asks for nothing. */
  lemma ReadsEndAtEnd(d: OpenFile, len: nat)
    requires WellKept(d) && d.inUse
    ensures Available(d, len) == 0 <==> len == 0 || d.offset == |d.bytes|
    ensures Available(d, len) <= len && d.offset + Available(d, len) <= |d.bytes|
    ensures Available(d, len) < len ==> d.offset + Available(d, len) == |d.bytes|
  {
  }

  /** What a read does to a slot in use, and what it hands over. */
  lemma ReadEffect(t: seq<OpenFile>, i: nat, len: nat)
    requires Kept(t) && i < SLOTS && t[i].inUse
    ensures var d := t[i];
            var op := FdOp.Read(FIRST_FD + i, len);
            && d.offset <= d.size == |d.bytes| && Kept(Step(t, op))
            && Step(t, op) == t[i := Advance(d, Available(d, len))]
            && Handed(t, op, FIRST_FD + i) == d.bytes[d.offset..d.offset + Available(d, len)]
  {
    assert WellKept(t[i]);
  }

  // ----- Slots over heap memory ------------------------------------------------------

  /** The heap pages the open slots own. */
  ghost function TablePages(t: seq<FileDesc>): (s: set<nat>)
    ensures forall i :: 0 <= i < |t| && t[i].inUse ==> PageOf(t[i].data) in s
    ensures forall p :: p in s ==> exists i :: 0 <= i < |t| && t[i].inUse && PageOf(t[i].data) == p
  {
    set i | 0 <= i < |t| && t[i].inUse :: PageOf(t[i].data)
  }

  ghost predicate Unshared(t: seq<FileDesc>) {
    forall i, j :: 0 <= i < j < |t| && t[i].inUse && t[j].inUse ==> PageOf(t[i].data) != PageOf(t[j].data)
  }

  /** A slot is closed and blank, or its buffer is the payload of a live block with room for the file. */
  ghost predicate Owns(d: FileDesc, st: State) {
    if d.inUse then
      && d.offset <= d.size && d.data % PAGE_SIZE == HEADER_SIZE && PageOf(d.data) in st.live
      && d.data + d.size <= MEMORY && forall a :: d.data <= a < d.data + d.size ==> InPayload(st, PageOf(d.data), a)
    else d == CLOSED
  }

  ghost predicate Owned(t: seq<FileDesc>, st: State) {
    forall i {:trigger t[i]} :: 0 <= i < |t| ==> Owns(t[i], st)
  }

  ghost function Held(d: FileDesc, h: seq<Header>, rest: seq<byte>): OpenFile
    requires |h| == PAGES && |rest| == MEMORY
  {
    if d.inUse && d.data + d.size <= MEMORY then
      OpenFile(true, d.size, d.offset, d.data, Span(h, rest, d.data, d.size))
    else BLANK
  }

  ghost function ViewOf(t: seq<FileDesc>, h: seq<Header>, rest: seq<byte>): (v: seq<OpenFile>)
    requires |h| == PAGES && |rest| == MEMORY
    ensures |v| == |t| && forall i {:trigger v[i]} {:trigger t[i]} :: 0 <= i < |t| ==> v[i] == Held(t[i], h, rest)
  {
    seq(|t|, i requires 0 <= i < |t| => Held(t[i], h, rest))
  }

  lemma ViewKept(t: seq<FileDesc>, st: State, h: seq<Header>, rest: seq<byte>)
    requires |t| == SLOTS && Owned(t, st) && |h| == PAGES && |rest| == MEMORY
    ensures Kept(ViewOf(t, h, rest))
    ensures forall i :: 0 <= i < SLOTS ==> (ViewOf(t, h, rest)[i].inUse <==> t[i].inUse)
    ensures forall i :: 0 <= i < SLOTS && t[i].inUse ==>
              ViewOf(t, h, rest)[i] == OpenFile(true, t[i].size, t[i].offset, t[i].data, Span(h, rest, t[i].data, t[i].size))
  {
    forall i | 0 <= i < SLOTS
      ensures WellKept(ViewOf(t, h, rest)[i]) && (ViewOf(t, h, rest)[i].inUse <==> t[i].inUse)
      ensures t[i].inUse ==> t[i].data + t[i].size <= MEMORY
    {
      assert Owns(t[i], st);
    }
  }

  /** The memory of live pages unchanged: every slot still holds the same bytes. */
  lemma SameView(t: seq<FileDesc>, st: State, h: seq<Header>, rest: seq<byte>, h': seq<Header>, rest': seq<byte>)
    requires Inv(st) && Owned(t, st) && |h| == |h'| == PAGES && |rest| == |rest'| == MEMORY
    requires forall a :: 0 <= a < MEMORY && a / PAGE_SIZE in LivePages(st) ==> ByteAt(h', rest', a) == ByteAt(h, rest, a)
    ensures ViewOf(t, h', rest') == ViewOf(t, h, rest)
  {
    forall i | 0 <= i < |t|
      ensures Held(t[i], h', rest') == Held(t[i], h, rest)
    {
      assert Owns(t[i], st);
      if t[i].inUse {
        SameSpan(t[i], st, h, rest, h', rest');
      }
    }
  }

  lemma SameSpan(d: FileDesc, st: State, h: seq<Header>, rest: seq<byte>, h': seq<Header>, rest': seq<byte>)
    requires Inv(st) && Owns(d, st) && d.inUse && |h| == |h'| == PAGES && |rest| == |rest'| == MEMORY
    requires forall a :: 0 <= a < MEMORY && a / PAGE_SIZE in LivePages(st) ==> ByteAt(h', rest', a) == ByteAt(h, rest, a)
    ensures Span(h', rest', d.data, d.size) == Span(h, rest, d.data, d.size)
  {
    hide ByteAt, InPayload;
    var now, was := Span(h', rest', d.data, d.size), Span(h, rest, d.data, d.size);
    forall k | 0 <= k < d.size
      ensures now[k] == was[k]
    {
      PayloadWritable(st, PageOf(d.data), d.data + k);
    }
  }

  /** Slots keep their blocks while those stay live with their orders. */
  lemma StillOwned(t: seq<FileDesc>, st: State, after: State)
    requires Owned(t, st)
    requires forall p :: p in TablePages(t) && p in st.live ==> p in after.live && after.live[p] == st.live[p]
    ensures Owned(t, after)
  {
    forall i | 0 <= i < |t|
      ensures Owns(t[i], after)
    {
      assert Owns(t[i], st);
      if t[i].inUse {
        forall a | t[i].data <= a < t[i].data + t[i].size
          ensures InPayload(after, PageOf(t[i].data), a)
        {
          assert InPayload(st, PageOf(t[i].data), a);
        }
      }
    }
  }

  lemma PagesAfterOpen(t: seq<FileDesc>, i: nat, d: FileDesc)
    requires i < |t| && !t[i].inUse && d.inUse && Unshared(t) && PageOf(d.data) !in TablePages(t)
    ensures TablePages(t[i := d]) == TablePages(t) + {PageOf(d.data)} && Unshared(t[i := d])
  {
    var u := t[i := d];
    assert u[i] == d;
    forall k | 0 <= k < |t| && t[k].inUse
      ensures PageOf(t[k].data) in TablePages(u) && PageOf(t[k].data) != PageOf(d.data)
    {
      assert u[k] == t[k];
    }
  }

  lemma PagesAfterClose(t: seq<FileDesc>, i: nat)
    requires i < |t| && t[i].inUse && Unshared(t)
    ensures TablePages(t[i := CLOSED]) == TablePages(t) - {PageOf(t[i].data)} && Unshared(t[i := CLOSED])
  {
    var u := t[i := CLOSED];
    forall k | 0 <= k < |t| && t[k].inUse && k != i
      ensures PageOf(t[k].data) in TablePages(u) && PageOf(t[k].data) != PageOf(t[i].data)
    {
      assert u[k] == t[k];
    }
  }

  lemma PagesAfterRead(t: seq<FileDesc>, i: nat, offset: nat)
    requires i < |t| && t[i].inUse && Unshared(t)
    ensures TablePages(t[i := t[i].(offset := offset)]) == TablePages(t) && Unshared(t[i := t[i].(offset := offset)])
  {
    var u := t[i := t[i].(offset := offset)];
    assert forall k :: 0 <= k < |t| ==> u[k].inUse == t[k].inUse && u[k].data == t[k].data;
  }

  // ----- Opening -----------------------------------------------------------------

  /** A leading slash is dropped. */
  function Stripped(path: seq<byte>): seq<byte> {
    if CharAt(path, 0) == 47 then path[1..] else path
  }

  lemma StrippedNulFree(path: seq<byte>)
    requires NulFree(path)
    ensures NulFree(Stripped(path))
  {
  }

  /** d holds the named file from its start: its first bytes are what the directory entry's blocks hold. */
  ghost predicate OpenedFile(disk: seq<byte>, path: seq<byte>, d: OpenFile, info: DirInfo) {
    && |disk| >= 4 * BLOCK && Names(disk, path, info)
    && d.inUse && d.offset == 0 && d.size == info.size == |d.bytes|
    && (info.first + info.count) * BLOCK <= |disk|
    && d.bytes[..Copied(info)] == disk[info.first * BLOCK..info.first * BLOCK + Copied(info)]
  }

  /** A successful allocation adds one block to the live set. */
  lemma NewlyLive(st: State, size: nat)
    requires Inv(st)
    ensures |st.lists| == MAX_ORDER + 1 && |st.bits| == PAGES
    ensures var r := BuddyState.Kmalloc(st, size);
            r.pointer != 0 ==>
              && r.pointer % PAGE_SIZE == HEADER_SIZE && PageOf(r.pointer) !in st.live
              && r.st.live.Keys == st.live.Keys + {PageOf(r.pointer)}
              && r.st.live - {PageOf(r.pointer)} == st.live
  {
    if size > 0 && PageCount(size) <= 1024 {
      OrderBound(PageCount(size));
      ObtainInv(st, OrderFor(PageCount(size)));
    }
  }

  /** The new buffer is its slot's own. */
  lemma NewlyOwned(st: State, size: nat)
    requires Inv(st) && size < UINT32
    ensures |st.lists| == MAX_ORDER + 1 && |st.bits| == PAGES
    ensures var r := BuddyState.Kmalloc(st, size);
            r.pointer != 0 && r.pointer + size <= MEMORY ==> Owns(FileDesc(true, size, 0, r.pointer), r.st)
  {
    NewlyLive(st, size);
    NewPayload(st, size);
  }

  /** Putting a new file in the first free slot is the table step. */
  lemma OpenedView(t: seq<FileDesc>, st: State, h: seq<Header>, rest: seq<byte>, i: nat, d: FileDesc)
    requires |t| == SLOTS && Owned(t, st) && |h| == PAGES && |rest| == MEMORY
    requires i < SLOTS && !t[i].inUse && forall k :: 0 <= k < i ==> t[k].inUse
    requires Owns(d, st) && d.inUse && d.offset == 0
    ensures var v, e := ViewOf(t, h, rest), Held(d, h, rest);
            && e == OpenFile(true, d.size, 0, d.data, Span(h, rest, d.data, d.size))
            && FirstFree(v, i) && IsFresh(FdOp.Open(Some(e))) && Kept(v) && Owned(t[i := d], st)
            && ViewOf(t[i := d], h, rest) == v[i := e] == Step(v, FdOp.Open(Some(e))) && Kept(v[i := e])
  {
    ViewKept(t, st, h, rest);
    var v, e := ViewOf(t, h, rest), Held(d, h, rest);
    assert ViewOf(t[i := d], h, rest) == v[i := e];
    assert FreeSlot(v, 0) == i;
  }

  /** A full table in memory is a full table to its readers. */
  lemma FullView(t: seq<FileDesc>, st: State, h: seq<Header>, rest: seq<byte>)
    requires |t| == SLOTS && Owned(t, st) && |h| == PAGES && |rest| == MEMORY
    requires forall k :: 0 <= k < SLOTS ==> t[k].inUse
    ensures FirstFree(ViewOf(t, h, rest), SLOTS)
  {
    ViewKept(t, st, h, rest);
  }

  lemma OwnedPages(t: seq<FileDesc>, st: State)
    requires Owned(t, st)
    ensures TablePages(t) <= st.live.Keys
  {
    forall i | 0 <= i < |t| && t[i].inUse
      ensures PageOf(t[i].data) in st.live
    {
      assert Owns(t[i], st);
    }
  }

  lemma SameLive(st: State, after: State)
    requires st.live == after.live
    ensures LivePages(st) == LivePages(after)
  {
  }

  /** Blanking a slot is the table step. */
  lemma ClosedView(t: seq<FileDesc>, st: State, h: seq<Header>, rest: seq<byte>, i: nat)
    requires |t| == SLOTS && Owned(t, st) && |h| == PAGES && |rest| == MEMORY && i < SLOTS && t[i].inUse
    ensures var v := ViewOf(t, h, rest);
            && Serves(v, FIRST_FD + i) && Kept(v) && Owned(t[i := CLOSED], st)
            && ViewOf(t[i := CLOSED], h, rest) == v[i := BLANK] == Step(v, FdOp.Close(FIRST_FD + i))
            && Kept(v[i := BLANK])
  {
    ViewKept(t, st, h, rest);
    assert ViewOf(t[i := CLOSED], h, rest) == ViewOf(t, h, rest)[i := BLANK];
  }

  /** Moving the read position on is the table step, and the bytes passed over are what it hands out. */
  lemma ReadView(t: seq<FileDesc>, st: State, h: seq<Header>, rest: seq<byte>, i: nat, len: nat)
    requires |t| == SLOTS && Owned(t, st) && |h| == PAGES && |rest| == MEMORY && i < SLOTS && t[i].inUse
    ensures var d, v, op := t[i], ViewOf(t, h, rest), FdOp.Read(FIRST_FD + i, len);
            && d.offset <= d.size && d.data + d.size <= MEMORY && Kept(v)
            && var n := Available(v[i], len);
            && n == (if d.offset >= d.size then 0 else if len < d.size - d.offset then len else d.size - d.offset)
            && var u := t[i := d.(offset := d.offset + n)];
            && Owned(u, st) && ViewOf(u, h, rest) == Step(v, op) && Kept(Step(v, op))
            && Handed(v, op, FIRST_FD + i) == Span(h, rest, d.data, d.size)[d.offset..d.offset + n]
  {
    ViewKept(t, st, h, rest);
    assert Owns(t[i], st);
    var v := ViewOf(t, h, rest);
    ReadEffect(v, i, len);
    var n := Available(v[i], len);
    var u := t[i := t[i].(offset := t[i].offset + n)];
    assert ViewOf(u, h, rest) == v[i := Advance(v[i], n)];
  }

  // ----- The table in the kernel ---------------------------------------------------

  class Descriptors {
    const driver: Driver
    const m: Memory
    const slots: array<FileDesc>

    ghost predicate Valid()
      reads this, driver, m, m.heap, m.heap.freeLists, m.heap.headers, m.heap.pmm, m.heap.pmm.bitmap, slots
    {
      && m.Valid() && driver.Valid()
      && slots as object != m.heap.pmm.bitmap && slots.Length == SLOTS
      && Owned(slots[..], m.heap.Abs()) && Unshared(slots[..])
    }

    /** The table with the bytes heap memory holds for each open file. */
    ghost function View(): seq<OpenFile>
      reads this, m, m.heap, m.heap.headers, m.rest, slots
      requires m.heap.headers.Length == PAGES && m.rest.Length == MEMORY
    {
      ViewOf(slots[..], m.heap.headers[..], m.rest[..])
    }

    constructor (d: Driver, memory: Memory)
      requires d.Valid() && memory.Valid()
      ensures Valid() && driver == d && m == memory && fresh(slots) && slots.Length == 16
      ensures forall i :: 0 <= i < slots.Length ==> slots[i] == CLOSED
    {
      driver, m := d, memory;
      slots := new FileDesc[SLOTS](_ => CLOSED);
    }

    /** The file goes in the first free slot, or nothing has happened: in particular a full table frees
        the buffer again. What else is live on the heap is not touched, the other open files' bytes
        included. */
    method Open(path: Option<seq<byte>>) returns (fd: nat)
      requires Valid() && (path.Some? ==> NulFree(path.value))
      modifies m.heap, m.heap.freeLists, m.heap.headers, m.heap.pmm, m.heap.pmm.bitmap, m.rest, slots
      ensures Valid() && Kept(View()) && Kept(old(View())) && (3 <= fd < 19 || fd == 0xFFFF_FFFF)
      ensures fd == FD_ERROR ==> View() == old(View()) && slots[..] == old(slots[..]) && m.heap.live == old(m.heap.live)
      ensures fd == FD_ERROR && path.Some? && driver.initialized ==>
                || FirstFree(old(View()), SLOTS)
                || forall o :: Names(driver.disk, Stripped(path.value), o) ==>
                     BuddyState.Kmalloc(old(m.heap.Abs()), o.size).pointer == 0
      ensures fd != FD_ERROR ==>
                && path.Some? && IsFd(fd) && FirstFree(old(View()), fd - FIRST_FD)
                && var d := View()[fd - FIRST_FD];
                && View() == Step(old(View()), FdOp.Open(Some(d))) && IsFresh(FdOp.Open(Some(d)))
                && PageOf(d.data) !in old(m.heap.live) && m.heap.live.Keys == old(m.heap.live.Keys) + {PageOf(d.data)}
                && m.heap.live - {PageOf(d.data)} == old(m.heap.live)
                && exists info :: OpenedFile(driver.disk, Stripped(path.value), d, info)
      ensures m.heap.live.Keys - TablePages(slots[..]) == old(m.heap.live.Keys - TablePages(slots[..]))
      ensures forall a :: 0 <= a < MEMORY && a / PAGE_SIZE in LivePages(old(m.heap.Abs())) ==> m.At(a) == old(m.At(a))
    {
      hide Unshared, Owned, Kept, OpenedFile, NulFree, Names, ViewOf, LivePages, Inv, Step, IsFresh, BuddyState.Kmalloc;
      hide BuddyHeap.Valid, Driver.Valid, ByteAt, Owns, Stripped;
      ghost var t, st, h, r := slots[..], m.heap.Abs(), m.heap.headers[..], m.rest[..];
      ValidInv(m);
      ViewKept(t, st, h, r);
      OwnedPages(t, st);
      if path.None? {
        return FD_ERROR;
      }
      StrippedNulFree(path.value);
      var pointer, size;
      ghost var info;
      pointer, size, info := LoadFile(Stripped(path.value));
      ghost var h', r' := m.heap.headers[..], m.rest[..];
      assert slots[..] == t;
      SameView(t, st, h, r, h', r');
      if pointer == 0 {
        return FD_ERROR;
      }
      StillOwned(t, st, m.heap.Abs());
      ghost var d := FileDesc(true, size, 0, pointer);
      var i := Install(size, pointer);
      if i < SLOTS {
        OpenedView(t, m.heap.Abs(), h', r', i, d);
        return FIRST_FD + i;
      }
      FullView(t, st, h, r);
      ReleaseBuffer(pointer);
      SameLive(st, m.heap.Abs());
      ValidInv(m);
      StillOwned(t, st, m.heap.Abs());
      SameView(t, m.heap.Abs(), h', r', m.heap.headers[..], m.rest[..]);
      return FD_ERROR;
    }

    /** fs_read for a descriptor: a null pointer, or a new heap block holding the file. */
    method LoadFile(path: seq<byte>) returns (pointer: nat, size: nat, ghost info: DirInfo)
      requires m.Valid() && driver.Valid() && NulFree(path)
      modifies m.heap, m.heap.freeLists, m.heap.headers, m.heap.pmm, m.heap.pmm.bitmap, m.rest
      ensures m.Valid()
      ensures pointer == 0 ==> m.heap.Abs() == old(m.heap.Abs())
      ensures pointer == 0 && driver.initialized ==>
                forall o :: Names(driver.disk, path, o) ==> BuddyState.Kmalloc(old(m.heap.Abs()), o.size).pointer == 0
      ensures pointer != 0 ==>
                && pointer % PAGE_SIZE == HEADER_SIZE && PageOf(pointer) !in old(m.heap.live)
                && m.heap.live.Keys == old(m.heap.live.Keys) + {PageOf(pointer)}
                && m.heap.live - {PageOf(pointer)} == old(m.heap.live)
                && Owns(FileDesc(true, size, 0, pointer), m.heap.Abs())
                && OpenedFile(driver.disk, path, OpenFile(true, size, 0, pointer, m.Bytes(pointer, size)), info)
      ensures forall a :: 0 <= a < MEMORY && a / PAGE_SIZE in LivePages(old(m.heap.Abs())) ==> m.At(a) == old(m.At(a))
    {
      hide Inv, Linked, LivePages, BuddyState.Kmalloc, Names, ByteAt, NulFree, BuddyHeap.Valid;
      ghost var was := m.heap.Abs();
      ValidInv(m);
      var rc;
      rc, pointer, size, info := driver.Read(path, m);
      if rc < 0 {
        return 0, 0, info;
      }
      NewlyLive(was, size);
      NewlyOwned(was, size);
      NamedInside(driver.disk, path, info);
    }

    /** The search for a free slot. */
    method Install(size: nat, pointer: nat) returns (i: nat)
      requires slots.Length == SLOTS && Unshared(slots[..]) && PageOf(pointer) !in TablePages(slots[..])
      modifies slots
      ensures i <= SLOTS && forall k :: 0 <= k < i ==> old(slots[..])[k].inUse
      ensures i == SLOTS ==> slots[..] == old(slots[..])
      ensures i < SLOTS ==>
                && !old(slots[..])[i].inUse && slots[..] == old(slots[..])[i := FileDesc(true, size, 0, pointer)]
                && Unshared(slots[..]) && TablePages(slots[..]) == TablePages(old(slots[..])) + {PageOf(pointer)}
    {
      ghost var t, d := slots[..], FileDesc(true, size, 0, pointer);
      i := 0;
      while i < SLOTS
        invariant i <= SLOTS && slots[..] == t && forall k :: 0 <= k < i ==> t[k].inUse
      {
        if !slots[i].inUse {
          PagesAfterOpen(t, i, d);
          slots[i] := FileDesc(true, size, 0, pointer);
          assert slots[..] == t[i := d];
          return;
        }
        i := i + 1;
      }
    }

    /** A descriptor in use is closed, its slot blanked and its buffer freed; anything else is an error.
        No byte of what stays live is written, the other open files' included. */
    method Close(fd: nat) returns (r: nat)
      requires Valid()
      modifies m.heap, m.heap.freeLists, m.heap.headers, slots
      ensures Valid() && Kept(View()) && Kept(old(View()))
      ensures r == if 3 <= fd < 19 && old(slots[..])[fd - 3].inUse then 0 else 0xFFFF_FFFF
      ensures View() == Step(old(View()), FdOp.Close(fd))
      ensures r == FD_ERROR ==> m.heap.live == old(m.heap.live) && slots[..] == old(slots[..])
      ensures r == 0 ==> m.heap.live == old(m.heap.live - {PageOf(slots[fd - FIRST_FD].data)})
      ensures m.heap.live.Keys - TablePages(slots[..]) == old(m.heap.live.Keys - TablePages(slots[..]))
      ensures forall a :: 0 <= a < MEMORY && a / PAGE_SIZE in LivePages(m.heap.Abs()) ==> m.At(a) == old(m.At(a))
    {
      hide Unshared, Kept, ViewOf, LivePages, Inv, BuddyHeap.Valid, Driver.Valid, ByteAt;
      ghost var t, st, h, r0 := slots[..], m.heap.Abs(), m.heap.headers[..], m.rest[..];
      ValidInv(m);
      ViewKept(t, st, h, r0);
      OwnedPages(t, st);
      if fd < FIRST_FD || fd >= FIRST_FD + SLOTS {
        return FD_ERROR;
      }
      var i := fd - FIRST_FD;
      if !slots[i].inUse {
        return FD_ERROR;
      }
      assert Owns(t[i], st);
      PagesAfterClose(t, i);
      ClosedView(t, st, h, r0, i);
      hide Owned, Owns, Step;
      if slots[i].data != 0 {
        ReleaseBuffer(slots[i].data);
      }
      slots[i] := CLOSED;
      assert slots[..] == t[i := CLOSED];
      ValidInv(m);
      StillOwned(t[i := CLOSED], st, m.heap.Abs());
      SameView(t[i := CLOSED], m.heap.Abs(), h, r0, m.heap.headers[..], m.rest[..]);
      return 0;
    }

    /** Copies the next bytes of the file from heap memory to the caller's buffer and moves on by as many. */
    method Read(fd: nat, dest: array?<byte>, len: nat) returns (n: nat)
      requires Valid() && (dest != null ==> len <= dest.Length && Elsewhere(dest))
      modifies slots
      modifies if dest == null then {} else {dest}
      ensures Valid() && Kept(View()) && Kept(old(View()))
      ensures TablePages(slots[..]) == old(TablePages(slots[..]))
      ensures dest == null || !(3 <= fd < 19 && old(slots[..])[fd - 3].inUse) ==> n == 0xFFFF_FFFF && View() == old(View())
      ensures dest != null && 3 <= fd < 19 && old(slots[..])[fd - 3].inUse ==>
                && View() == Step(old(View()), FdOp.Read(fd, len))
                && n == Available(old(View()[fd - FIRST_FD]), len) <= dest.Length
                && dest[..n] == Handed(old(View()), FdOp.Read(fd, len), fd)
                && dest[n..] == old(dest[n..])
    {
      hide Unshared, BuddyHeap.Valid, Driver.Valid, Step, Handed, Kept, TablePages, ViewOf, Owns, Owned, ByteAt;
      ghost var t, st, h, r := slots[..], m.heap.Abs(), m.heap.headers[..], m.rest[..];
      ViewKept(t, st, h, r);
      if fd < FIRST_FD || fd >= FIRST_FD + SLOTS || dest == null {
        return FD_ERROR;
      }
      var i := fd - FIRST_FD;
      if !slots[i].inUse {
        return FD_ERROR;
      }
      var f := slots[i];
      n := if f.offset >= f.size then 0 else if len < f.size - f.offset then len else f.size - f.offset;
      ReadView(t, st, h, r, i, len);
      PagesAfterRead(t, i, f.offset + n);
      if f.offset >= f.size {
        assert t[i := f.(offset := f.offset + 0)] == t && dest[..0] == [];
        return 0;
      }
      CopyOut(dest, f, n);
      assert m.rest[..] == r && m.heap.headers[..] == h;
      slots[i] := f.(offset := f.offset + n);
      assert slots[..] == t[i := f.(offset := f.offset + n)];
      return n;
    }

    /** A caller's buffer is none of the kernel's own memory. */
    ghost predicate Elsewhere(dest: array<byte>)
      reads m, m.heap
    {
      dest != m.rest && dest as object != m.heap.pmm.bitmap && dest as object != m.heap.freeLists
    }

    /** The copy loop of fd_read. */
    method CopyOut(dest: array<byte>, f: FileDesc, n: nat)
      requires m.Valid() && n <= dest.Length && f.offset + n <= f.size && f.data + f.size <= MEMORY && Elsewhere(dest)
      modifies dest
      ensures dest[..n] == old(m.Bytes(f.data, f.size))[f.offset..f.offset + n]
      ensures dest[n..] == old(dest[n..])
    {
      hide BuddyHeap.Valid, ByteAt;
      ghost var bytes := m.Bytes(f.data, f.size);
      var i: nat := 0;
      while i < n
        invariant i <= n && m.Valid() && m.rest[..] == old(m.rest[..])
        invariant dest[..i] == bytes[f.offset..f.offset + i]
        invariant dest[n..] == old(dest[n..])
      {
        var v := m.Load(f.data + f.offset + i);
        assert v == bytes[f.offset + i];
        dest[i] := v;
        i := i + 1;
      }
    }

    /** kfree of a live buffer: exactly its block leaves the live set. */
    method ReleaseBuffer(pointer: nat)
      requires m.Valid() && pointer % PAGE_SIZE == HEADER_SIZE && PageOf(pointer) in m.heap.live
      modifies m.heap, m.heap.freeLists, m.heap.headers
      ensures m.Valid() && m.heap.live == old(m.heap.live) - {PageOf(pointer)}
      ensures forall a :: 0 <= a < MEMORY && a / PAGE_SIZE in LivePages(m.heap.Abs()) ==> m.At(a) == old(m.At(a))
    {
      hide Linked, Inv, LivePages, ByteAt;
      m.Kfree(pointer);
    }
  }

  lemma ValidInv(m: Memory)
    requires m.Valid()
    ensures Inv(m.heap.Abs()) && m.heap.headers.Length == PAGES && m.rest.Length == MEMORY
  {
  }

  // ----- Runs of calls ---------------------------------------------------------------

  datatype Call = CallOpen(path: Option<seq<byte>>) | CallClose(fd: nat) | CallRead(fd: nat, len: nat)

  ghost predicate GoodCall(c: Call) {
    c.CallOpen? && c.path.Some? ==> NulFree(c.path.value)
  }

  /** What is live outside the table is the same, block for block. */
  ghost predicate SameOthers(live: map<nat, nat>, pages: set<nat>, live': map<nat, nat>, pages': set<nat>) {
    live'.Keys - pages' == live.Keys - pages && forall p :: p in live.Keys - pages ==> live'[p] == live[p]
  }

  /** One call, seen by the reader of slot i: what it is handed is the next stretch of its file. */
  method Turn(d: Descriptors, c: Call, i: nat) returns (piece: seq<byte>)
    requires d.Valid() && i < SLOTS && d.View()[i].inUse && GoodCall(c) && c != CallClose(FIRST_FD + i)
    modifies d.m.heap, d.m.heap.freeLists, d.m.heap.headers, d.m.heap.pmm, d.m.heap.pmm.bitmap, d.m.rest, d.slots
    ensures d.Valid()
    ensures var was, now := old(d.View()[i]), d.View()[i];
            && now.inUse && now.bytes == was.bytes && now.data == was.data
            && was.offset + |piece| == now.offset <= |was.bytes| && piece == was.bytes[was.offset..now.offset]
    ensures SameOthers(old(d.m.heap.live), old(TablePages(d.slots[..])), d.m.heap.live, TablePages(d.slots[..]))
  {
    hide Step, Handed, Unshared, Owned, ViewOf, NulFree, LivePages, BuddyHeap.Valid, Driver.Valid, ByteAt;
    hide BuddyState.Kmalloc, OpenedFile, Names, TablePages, IsFresh, WellKept, Available;
    ghost var v := d.View();
    piece := [];
    match c
    case CallOpen(path) =>
      var fd := d.Open(path);
      if fd != FD_ERROR {
        StepLocal(v, FdOp.Open(Some(d.View()[fd - FIRST_FD])), i);
      }
      OffsetInside(v, i);
    case CallClose(fd) =>
      var r := d.Close(fd);
      StepLocal(v, FdOp.Close(fd), i);
      OffsetInside(v, i);
    case CallRead(fd, len) =>
      var dest := new byte[len](_ => 0);
      var n := d.Read(fd, dest, len);
      StepLocal(v, FdOp.Read(fd, len), i);
      OffsetInside(v, i);
      if fd == FIRST_FD + i {
        HandedIsNext(v, FdOp.Read(fd, len), i);
        piece := dest[..n];
      }
  }

  /** Over every run of opens, reads and closes on the descriptors that leaves slot i open, its buffer in
      heap memory keeps the file's bytes, its reads deliver exactly the next stretch of them, and nothing
      outside the table is taken or leaked. */
  method Serve(d: Descriptors, calls: seq<Call>, i: nat) returns (got: seq<byte>)
    requires d.Valid() && i < SLOTS && d.View()[i].inUse
    requires forall k :: 0 <= k < |calls| ==> GoodCall(calls[k]) && calls[k] != CallClose(FIRST_FD + i)
    modifies d.m.heap, d.m.heap.freeLists, d.m.heap.headers, d.m.heap.pmm, d.m.heap.pmm.bitmap, d.m.rest, d.slots
    ensures d.Valid()
    ensures var was, now := old(d.View()[i]), d.View()[i];
            && now.inUse && now.bytes == was.bytes && now.data == was.data
            && was.offset + |got| == now.offset <= |was.bytes| && got == was.bytes[was.offset..now.offset]
    ensures SameOthers(old(d.m.heap.live), old(TablePages(d.slots[..])), d.m.heap.live, TablePages(d.slots[..]))
  {
    hide Unshared, Owned, ViewOf, BuddyHeap.Valid, Driver.Valid, GoodCall, TablePages;
    ghost var was := d.View()[i];
    SlotInside(d, i);
    got := [];
    var k := 0;
    while k < |calls|
      invariant k <= |calls| && d.Valid()
      invariant var now := d.View()[i];
                && now.inUse && now.bytes == was.bytes && now.data == was.data
                && was.offset + |got| == now.offset <= |was.bytes| && got == was.bytes[was.offset..now.offset]
      invariant SameOthers(old(d.m.heap.live), old(TablePages(d.slots[..])), d.m.heap.live, TablePages(d.slots[..]))
    {
      ghost var before := d.View()[i].offset;
      var piece := Turn(d, calls[k], i);
      JoinSlices(was.bytes, was.offset, before, d.View()[i].offset);
      got := got + piece;
      k := k + 1;
    }
  }

  lemma SlotInside(d: Descriptors, i: nat)
    requires d.Valid() && i < SLOTS && d.View()[i].inUse
    ensures d.View()[i].offset <= |d.View()[i].bytes|
  {
    ViewKept(d.slots[..], d.m.heap.Abs(), d.m.heap.headers[..], d.m.rest[..]);
    OffsetInside(d.View(), i);
  }
}
