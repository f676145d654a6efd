/** Descriptor calls and another heap client in one run: blocks taken, written and given up, and pages
    taken below, between the opens, reads and closes. */
module FdClients {
  import opened Bytes
  import opened PmmSpec
  import opened Tiling
  import opened BuddyState
  import opened BuddyTheorems
  import opened HeapRuns
  import opened Chains
  import opened Heap
  import opened HeapMemory
  import opened HeapClients
  import opened FsDriver
  import opened FdTable

  /** A block the other client holds, by the pointer kmalloc gave; 0 once refused or given up. */
  datatype Handle = Handle(pointer: nat, size: nat)

  /** A descriptor call; or the other client takes a block, stores a byte in one, gives one up; or some
      kernel code takes pages. Blocks are named by the order in which they were taken. */
  datatype Event = Descriptor(call: Call) | Grab(size: nat) | Put(k: nat, offset: nat, value: byte) | Drop(k: nat)
                 | Pages(count: nat)

  ghost predicate GoodEvent(e: Event, i: nat) {
    match e
    case Descriptor(call) => GoodCall(call) && call != CallClose(FIRST_FD + i)
    case Grab(size) => CountFits(size)
    case _ => true
  }

  /** The pages of the blocks held. */
  ghost function HandlePages(mine: seq<Handle>): (s: set<nat>)
    ensures forall k :: 0 <= k < |mine| && mine[k].pointer != 0 ==> PageOf(mine[k].pointer) in s
    ensures forall p :: p in s ==> exists k :: 0 <= k < |mine| && mine[k].pointer != 0 && PageOf(mine[k].pointer) == p
  {
    set k | 0 <= k < |mine| && mine[k].pointer != 0 :: PageOf(mine[k].pointer)
  }

  /** The handle's block is live, has room, and is not the table's. */
  ghost predicate Holds(x: Handle, st: State, table: set<nat>) {
    x.pointer != 0 ==>
      && IsPointer(st.live, x.pointer) && PageOf(x.pointer) !in table
      && forall a :: x.pointer <= a < x.pointer + x.size ==> InPayload(st, PageOf(x.pointer), a)
  }

  ghost predicate HoldsAll(mine: seq<Handle>, st: State, table: set<nat>) {
    && (forall k {:trigger mine[k]} :: 0 <= k < |mine| ==> Holds(mine[k], st, table))
    && (forall j, k :: 0 <= j < k < |mine| && mine[j].pointer != 0 && mine[k].pointer != 0 ==>
          PageOf(mine[j].pointer) != PageOf(mine[k].pointer))
  }

  /** What is live and neither the table's nor the other client's. */
  ghost function Remaining(d: Descriptors, mine: seq<Handle>): set<nat>
    reads d, d.m, d.m.heap, d.slots
  {
    d.m.heap.live.Keys - TablePages(d.slots[..]) - HandlePages(mine)
  }

  /** Handles survive whatever keeps their blocks live and leaves them out of the table. */
  lemma StillHolds(mine: seq<Handle>, st: State, table: set<nat>, after: State, table': set<nat>)
    requires HoldsAll(mine, st, table)
    requires forall p :: p in HandlePages(mine) && p in st.live ==>
               p in after.live && after.live[p] == st.live[p] && p !in table'
    ensures HoldsAll(mine, after, table')
  {
    forall k | 0 <= k < |mine|
      ensures Holds(mine[k], after, table')
    {
      var x := mine[k];
      assert Holds(x, st, table);
      if x.pointer != 0 {
        forall a | x.pointer <= a < x.pointer + x.size
          ensures InPayload(after, PageOf(x.pointer), a)
        {
          assert InPayload(st, PageOf(x.pointer), a);
        }
      }
    }
  }

  /** Payloads of different live blocks share no byte. */
  lemma PayloadsApart(st: State, p: nat, q: nat, a: nat)
    requires Inv(st) && InPayload(st, p, a) && InPayload(st, q, a)
    ensures p == q
  {
    var b, c := Block(p, st.live[p]), Block(q, st.live[q]);
    assert b in LiveBlocks(st.live) && c in LiveBlocks(st.live);
    assert b.Covers(a / PAGE_SIZE) && c.Covers(a / PAGE_SIZE);
    TilesUnique(LiveBlocks(st.live), LivePages(st), b, c, a / PAGE_SIZE);
  }

  /** A byte changed in a block that is not the table's changes no open file. */
  lemma ViewApart(t: seq<FileDesc>, st: State, h: seq<Header>, rest: seq<byte>, h': seq<Header>, rest': seq<byte>,
                  page: nat, a: nat)
    requires Inv(st) && Owned(t, st) && |h| == |h'| == PAGES && |rest| == |rest'| == MEMORY
    requires InPayload(st, page, a) && page !in TablePages(t)
    requires forall b :: 0 <= b < MEMORY && b != a ==> ByteAt(h', rest', b) == ByteAt(h, rest, b)
    ensures ViewOf(t, h', rest') == ViewOf(t, h, rest)
  {
    hide ByteAt;
    forall i | 0 <= i < |t|
      ensures FdTable.Held(t[i], h', rest') == FdTable.Held(t[i], h, rest)
    {
      assert Owns(t[i], st);
      if t[i].inUse {
        var now, was := Span(h', rest', t[i].data, t[i].size), Span(h, rest, t[i].data, t[i].size);
        forall k | 0 <= k < t[i].size
          ensures now[k] == was[k]
        {
          if t[i].data + k == a {
            PayloadsApart(st, page, PageOf(t[i].data), a);
          }
        }
        assert now == was;
      }
    }
  }

  /** The other client takes a block. */
  method GrabBlock(d: Descriptors, size: nat, mine: seq<Handle>) returns (after: seq<Handle>)
    requires d.Valid() && CountFits(size) && HoldsAll(mine, d.m.heap.Abs(), TablePages(d.slots[..]))
    modifies d.m.heap, d.m.heap.freeLists, d.m.heap.headers, d.m.heap.pmm, d.m.heap.pmm.bitmap
    ensures d.Valid() && d.View() == old(d.View()) && HoldsAll(after, d.m.heap.Abs(), TablePages(d.slots[..]))
    ensures Remaining(d, after) == old(Remaining(d, mine))
  {
    hide Inv, Owns, InPayload, ByteAt, ViewOf, LivePages, Unshared, BuddyState.Kmalloc, Linked, TablePages, HandlePages;
    ghost var st, t, h, r := d.m.heap.Abs(), d.slots[..], d.m.heap.headers[..], d.m.rest[..];
    ValidInv(d.m);
    OwnedPages(t, st);
    NewlyLive(st, size);
    var pointer := d.m.Kmalloc(size);
    GrabFits(st, size);
    assert d.slots[..] == t;
    SameView(t, st, h, r, d.m.heap.headers[..], d.m.rest[..]);
    StillOwned(t, st, d.m.heap.Abs());
    HandlesLive(mine, st, TablePages(t));
    StillHolds(mine, st, TablePages(t), d.m.heap.Abs(), TablePages(t));
    after := mine + [Handle(pointer, size)];
    OneMoreHandle(mine, Handle(pointer, size), d.m.heap.Abs(), TablePages(t));
  }

  /** A new block holds what was asked for. */
  lemma GrabFits(st: State, size: nat)
    requires Inv(st) && CountFits(size)
    ensures |st.lists| == MAX_ORDER + 1 && |st.bits| == PAGES
    ensures var r := BuddyState.Kmalloc(st, size);
            && (r.pointer == 0 ==> r.st == st)
            && (r.pointer != 0 ==> Holds(Handle(r.pointer, size), r.st, st.live.Keys))
  {
    NewlyLive(st, size);
    NewPayload(st, size);
    if size > 0 && PageCount(size) <= 1024 {
      OrderBound(PageCount(size));
      ObtainInv(st, OrderFor(PageCount(size)));
    }
  }

  lemma HandlesLive(mine: seq<Handle>, st: State, table: set<nat>)
    requires HoldsAll(mine, st, table)
    ensures HandlePages(mine) <= st.live.Keys && HandlePages(mine) !! table
  {
    forall k | 0 <= k < |mine| && mine[k].pointer != 0
      ensures PageOf(mine[k].pointer) in st.live && PageOf(mine[k].pointer) !in table
    {
      assert Holds(mine[k], st, table);
    }
  }

  lemma OneMoreHandle(mine: seq<Handle>, x: Handle, st: State, table: set<nat>)
    requires HoldsAll(mine, st, table) && Holds(x, st, table)
    requires x.pointer != 0 ==> PageOf(x.pointer) !in HandlePages(mine)
    ensures HoldsAll(mine + [x], st, table)
    ensures HandlePages(mine + [x]) == HandlePages(mine) + if x.pointer == 0 then {} else {PageOf(x.pointer)}
  {
    var more := mine + [x];
    assert forall k :: 0 <= k < |mine| ==> more[k] == mine[k];
    assert more[|mine|] == x;
  }

  /** The other client stores a byte in a block it holds. */
  method PutByte(d: Descriptors, mine: seq<Handle>, k: nat, offset: nat, value: byte)
    requires d.Valid() && HoldsAll(mine, d.m.heap.Abs(), TablePages(d.slots[..]))
    modifies d.m.heap.headers, d.m.rest
    ensures d.Valid() && d.View() == old(d.View()) && d.m.heap.Abs() == old(d.m.heap.Abs())
    ensures d.slots[..] == old(d.slots[..])
  {
    hide Inv, Owns, InPayload, ByteAt, ViewOf, LivePages, Unshared, BuddyHeap.Valid, MayWrite;
    ghost var st, t, h, r := d.m.heap.Abs(), d.slots[..], d.m.heap.headers[..], d.m.rest[..];
    ValidInv(d.m);
    if k < |mine| && mine[k].pointer != 0 && offset < mine[k].size {
      assert Holds(mine[k], st, TablePages(t));
      ghost var page, a := PageOf(mine[k].pointer), mine[k].pointer + offset;
      PayloadWritable(st, page, a);
      d.m.Store(mine[k].pointer + offset, value);
      assert d.slots[..] == t;
      forall b | 0 <= b < MEMORY && b != a
        ensures ByteAt(d.m.heap.headers[..], d.m.rest[..], b) == ByteAt(h, r, b)
      {
        assert d.m.At(b) == old(d.m.At(b));
      }
      ViewApart(t, st, h, r, d.m.heap.headers[..], d.m.rest[..], page, a);
    }
  }

  /** The other client gives a block up. */
  method DropBlock(d: Descriptors, mine: seq<Handle>, k: nat) returns (after: seq<Handle>)
    requires d.Valid() && HoldsAll(mine, d.m.heap.Abs(), TablePages(d.slots[..]))
    modifies d.m.heap, d.m.heap.freeLists, d.m.heap.headers
    ensures d.Valid() && d.View() == old(d.View()) && HoldsAll(after, d.m.heap.Abs(), TablePages(d.slots[..]))
    ensures Remaining(d, after) == old(Remaining(d, mine))
  {
    hide Inv, Owns, InPayload, ByteAt, ViewOf, LivePages, Unshared, BuddyState.Kfree, Linked, ReadU32;
    ghost var st, t, h, r := d.m.heap.Abs(), d.slots[..], d.m.heap.headers[..], d.m.rest[..];
    ValidInv(d.m);
    after := mine;
    if k < |mine| && mine[k].pointer != 0 {
      var pointer := mine[k].pointer;
      assert Holds(mine[k], st, TablePages(t));
      d.m.LivePointer(pointer);
      HandlesLive(mine, st, TablePages(t));
      d.m.Kfree(pointer);
      KfreeLive(st, PageOf(pointer));
      after := mine[k := Handle(0, 0)];
      assert d.slots[..] == t;
      ValidInv(d.m);
      StillOwned(t, st, d.m.heap.Abs());
      SameView(t, d.m.heap.Abs(), h, r, d.m.heap.headers[..], d.m.rest[..]);
      OneLessHandle(mine, k, st, TablePages(t));
      StillHolds(after, st, TablePages(t), d.m.heap.Abs(), TablePages(t));
    }
  }

  lemma KfreeLive(st: State, page: nat)
    requires Inv(st) && page in st.live
    ensures st.live[page] <= MAX_ORDER && |st.lists| == MAX_ORDER + 1
    ensures BuddyState.Kfree(st, page).live == st.live - {page}
  {
    KfreeInv(st, page);
  }

  lemma OneLessHandle(mine: seq<Handle>, k: nat, st: State, table: set<nat>)
    requires HoldsAll(mine, st, table) && k < |mine| && mine[k].pointer != 0
    ensures HoldsAll(mine[k := Handle(0, 0)], st, table)
    ensures HandlePages(mine[k := Handle(0, 0)]) == HandlePages(mine) - {PageOf(mine[k].pointer)}
  {
    var less := mine[k := Handle(0, 0)];
    forall j | 0 <= j < |mine| && j != k && mine[j].pointer != 0
      ensures PageOf(mine[j].pointer) in HandlePages(less) && PageOf(mine[j].pointer) != PageOf(mine[k].pointer)
    {
      assert less[j] == mine[j];
    }
    forall j | 0 <= j < |mine|
      ensures Holds(less[j], st, table)
    {
      assert Holds(mine[j], st, table);
    }
  }

  /** Kernel code takes pages below. */
  method TakePages(d: Descriptors, count: nat)
    requires d.Valid()
    modifies d.m.heap.pmm, d.m.heap.pmm.bitmap
    ensures d.Valid() && d.View() == old(d.View()) && d.m.heap.live == old(d.m.heap.live)
    ensures d.slots[..] == old(d.slots[..])
  {
    assert d.m.heap.headers.Length != d.m.heap.pmm.bitmap.Length;  // different arrays
    hide Inv, Owns, InPayload, ViewOf, Unshared, BuddyHeap.Valid;
    ghost var st, t, h, r := d.m.heap.Abs(), d.slots[..], d.m.heap.headers[..], d.m.rest[..];
    CallBelow(d.m, TakeRun(count));
    assert d.slots[..] == t && d.m.heap.headers[..] == h && d.m.rest[..] == r;
    StillOwned(t, st, d.m.heap.Abs());
  }

  /** Blocks outside the table are outside it still, with their orders. */
  lemma OthersStay(live: map<nat, nat>, table: set<nat>, live': map<nat, nat>, table': set<nat>, pages: set<nat>)
    requires SameOthers(live, table, live', table') && pages <= live.Keys && pages !! table
    ensures forall p :: p in pages ==> p in live' && live'[p] == live[p] && p !in table'
    ensures live'.Keys - table' - pages == live.Keys - table - pages
  {
    forall p | p in pages
      ensures p in live' && live'[p] == live[p] && p !in table'
    {
      assert p in live.Keys - table;
      assert p in live'.Keys - table';
    }
  }

  /** One event, seen by the reader of slot i: what it is handed is the next stretch of its file, and no
      block is leaked or lost. */
  method Turn(d: Descriptors, e: Event, i: nat, mine: seq<Handle>) returns (piece: seq<byte>, after: seq<Handle>)
    requires d.Valid() && i < SLOTS && d.View()[i].inUse && GoodEvent(e, i)
    requires HoldsAll(mine, d.m.heap.Abs(), TablePages(d.slots[..]))
    modifies d.m.heap, d.m.heap.freeLists, d.m.heap.headers, d.m.heap.pmm, d.m.heap.pmm.bitmap, d.m.rest, d.slots
    ensures d.Valid() && HoldsAll(after, d.m.heap.Abs(), TablePages(d.slots[..]))
    ensures Remaining(d, after) == old(Remaining(d, mine))
    ensures var was, now := old(d.View()[i]), d.View()[i];
            && now.inUse && now.bytes == was.bytes && now.data == was.data
            && was.offset + |piece| == now.offset <= |was.bytes| && piece == was.bytes[was.offset..now.offset]
  {
    hide Inv, Owns, Holds, InPayload, ViewOf, Unshared, BuddyHeap.Valid, Driver.Valid;
    ghost var st, table := d.m.heap.Abs(), TablePages(d.slots[..]);
    SlotInside(d, i);
    HandlesLive(mine, st, table);
    piece, after := [], mine;
    match e
    case Descriptor(call) =>
      piece := FdTable.Turn(d, call, i);
      OthersStay(st.live, table, d.m.heap.live, TablePages(d.slots[..]), HandlePages(mine));
      StillHolds(mine, st, table, d.m.heap.Abs(), TablePages(d.slots[..]));
    case Grab(size) =>
      after := GrabBlock(d, size, mine);
    case Put(k, offset, value) =>
      PutByte(d, mine, k, offset, value);
    case Drop(k) =>
      after := DropBlock(d, mine, k);
    case Pages(count) =>
      TakePages(d, count);
      StillHolds(mine, st, table, d.m.heap.Abs(), table);
  }

  /** Over every run of descriptor calls, other blocks taken, written and given up, and pages taken, that
      leaves slot i open: its buffer in heap memory keeps the file's bytes, its reads deliver exactly the
      next stretch of them, and what is live besides the table's and the other client's blocks is what
      it was: nothing is leaked and nothing of others is freed. */
  method Serve(d: Descriptors, events: seq<Event>, i: nat) returns (got: seq<byte>, mine: seq<Handle>)
    requires d.Valid() && i < SLOTS && d.View()[i].inUse
    requires forall k :: 0 <= k < |events| ==> GoodEvent(events[k], i)
    modifies d.m.heap, d.m.heap.freeLists, d.m.heap.headers, d.m.heap.pmm, d.m.heap.pmm.bitmap, d.m.rest, d.slots
    ensures d.Valid() && HoldsAll(mine, d.m.heap.Abs(), TablePages(d.slots[..]))
    ensures Remaining(d, mine) == old(d.m.heap.live.Keys - TablePages(d.slots[..]))
    ensures TablePages(d.slots[..]) <= d.m.heap.live.Keys && HandlePages(mine) <= d.m.heap.live.Keys
    ensures TablePages(d.slots[..]) !! HandlePages(mine)
    ensures var was, now := old(d.View()[i]), d.View()[i];
            && now.inUse && now.bytes == was.bytes && now.data == was.data
            && was.offset + |got| == now.offset <= |was.bytes| && got == was.bytes[was.offset..now.offset]
  {
    hide Owns, Holds, ViewOf, Unshared, BuddyHeap.Valid, Driver.Valid, GoodEvent, TablePages;
    ghost var was := d.View()[i];
    SlotInside(d, i);
    got, mine := [], [];
    assert HandlePages(mine) == {};
    var k := 0;
    while k < |events|
      invariant k <= |events| && d.Valid() && HoldsAll(mine, d.m.heap.Abs(), TablePages(d.slots[..]))
      invariant Remaining(d, mine) == old(d.m.heap.live.Keys - TablePages(d.slots[..]))
      invariant var now := d.View()[i];
                && now.inUse && now.bytes == was.bytes && now.data == was.data
                && was.offset + |got| == now.offset <= |was.bytes| && got == was.bytes[was.offset..now.offset]
    {
      ghost var before := d.View()[i].offset;
      var piece;
      piece, mine := Turn(d, events[k], i, mine);
      JoinSlices(was.bytes, was.offset, before, d.View()[i].offset);
      got := got + piece;
      k := k + 1;
    }
    OwnedPages(d.slots[..], d.m.heap.Abs());
    HandlesLive(mine, d.m.heap.Abs(), TablePages(d.slots[..]));
  }
}
