/** Runs from the state boot leaves: what the heap can and cannot come to own, and a pair of siblings it
    never merges. */
module BootRuns {
  import opened Wrappers
  import opened Machine
  import opened Bits
  import opened PmmSpec
  import opened Tiling
  import opened BuddySpec
  import opened BuddyState
  import opened BuddyTheorems
  import opened HeapRuns

  // ----- The boot map ------------------------------------------------------------------

  /** bits is a page map that pmm_init can leave. */
  ghost predicate Booted(bits: seq<bool>, table: seq<E820Entry>, kernelStart: nat, kernelEnd: nat) {
    && |bits| == PAGES
    && forall p :: 0 <= p < PAGES ==>
         (!bits[p] <==>
          && (exists i :: 0 <= i < |table| && i < 64 && table[i].kind == 1
                          && StartPage(table[i]) <= p < EndPage(table[i]))
          && !Reserved(p, kernelStart, kernelEnd))
  }

  /** What boot reserves the heap never owns, whatever runs, unless it is given back: low memory, the
      kernel, its page tables, the first 64 pages of the user region, and the first 512 blocks of the
      ramdisk. */
  lemma ReservedNeverOwned(bits: seq<bool>, table: seq<E820Entry>, kernelStart: nat, kernelEnd: nat, ops: seq<Op>, p: nat)
    requires Booted(bits, table, kernelStart, kernelEnd) && p < PAGES && Reserved(p, kernelStart, kernelEnd)
    requires forall i :: 0 <= i < |ops| ==> ops[i] != GiveBack(p)
    ensures Inv(EmptyHeap(bits))
    ensures AllowedRun(EmptyHeap(bits), ops) ==> p !in Run(EmptyHeap(bits), ops).owned
  {
    assert Reserved(0, kernelStart, kernelEnd);
    EmptyHeapInv(bits);
    if AllowedRun(EmptyHeap(bits), ops) {
      NeverOwned(EmptyHeap(bits), ops, p);
    }
  }

  const KERNEL_START: nat := 0x10_0000
  const KERNEL_END: nat := 0x11_0FF0

  /** All of memory offered, and a kernel that ends in page 272. */
  ghost function BootBits(): (bits: seq<bool>)
    ensures |bits| == PAGES && bits[0]
    ensures forall p :: 0 <= p < PAGES ==> (bits[p] <==> Reserved(p, KERNEL_START, KERNEL_END))
  {
    seq(PAGES, p requires 0 <= p => Reserved(p, KERNEL_START, KERNEL_END))
  }

  lemma AllOffered(table: seq<E820Entry>, p: nat)
    requires table == [E820Entry(0, PAGES * PAGE_SIZE, 1)] && p < PAGES
    ensures exists i :: 0 <= i < |table| && i < 64 && table[i].kind == 1
                        && StartPage(table[i]) <= p < EndPage(table[i])
  {
    assert table[0].kind == 1 && StartPage(table[0]) == 0 && EndPage(table[0]) == PAGES;
  }

  lemma BootBitsBooted()
    ensures Booted(BootBits(), [E820Entry(0, PAGES * PAGE_SIZE, 1)], KERNEL_START, KERNEL_END)
  {
    var bits, table := BootBits(), [E820Entry(0, PAGES * PAGE_SIZE, 1)];
    forall p | 0 <= p < PAGES
      ensures !bits[p] <==>
               && (exists i :: 0 <= i < |table| && i < 64 && table[i].kind == 1
                               && StartPage(table[i]) <= p < EndPage(table[i]))
               && !Reserved(p, KERNEL_START, KERNEL_END)
    {
      AllOffered(table, p);
    }
  }

  // ----- A run that leaves a pair of siblings unmerged ------------------------------

  /** Only the lists of orders 0 and 1 hold anything. */
  ghost function TwoLists(zero: seq<nat>, one: seq<nat>): (ls: Lists)
    ensures |ls| == MAX_ORDER + 1 && ls[0] == zero && ls[1] == one
    ensures forall k :: 2 <= k <= MAX_ORDER ==> ls[k] == []
  {
    NoBlocks()[0 := zero][1 := one]
  }

  lemma TwoListsSteps(zero: seq<nat>, one: seq<nat>, p: nat)
    ensures Push(TwoLists(zero, one), 0, p) == TwoLists([p] + zero, one)
    ensures Push(TwoLists(zero, one), 1, p) == TwoLists(zero, [p] + one)
    ensures TwoLists(zero, one)[0 := []] == TwoLists([], one)
    ensures TwoLists([], []) == NoBlocks()
  {
  }

  lemma SlackPieces()
    ensures LayOut(NoBlocks(), 273, 276, 2) == TwoLists([273], [274])
  {
    assert Pow2(2) == 4 && Bit(3, 1) && Bit(3, 0);
    TwoListsSteps([], [], 274);
    TwoListsSteps([], [274], 273);
    assert [273] + [] == [273] && [274] + [] == [274];
    PlaceSkips(NoBlocks(), 3, 276, 2, MAX_ORDER);
    PlaceSkips(TwoLists([273], [274]), 0, 280, 0, MAX_ORDER);
    hide TwoLists, NoBlocks, Bit;
    assert PlaceDown(TwoLists([], [274]), 3, 274, 1) == PlaceDown(TwoLists([273], [274]), 3, 273, 0);
  }

  lemma RoundedStart()
    ensures RoundUp(273, 2, PAGE_BITS) == 276
  {
    hide RoundUp;
    RoomToRound(273, 2);
    RoundUpMeaning(273, 2, PAGE_BITS);
    assert Pow2(2) == 4;
  }

  /** The first seven free pages start at 273. */
  lemma FirstSeven()
    ensures FirstRun(BootBits(), 7, 0) == Some(273)
  {
    forall t | 0 <= t < 273
      ensures !Clear(BootBits(), t, 7)
    {
      assert Reserved(t, KERNEL_START, KERNEL_END);
    }
    FirstRunIs(BootBits(), 7, 273);
  }

  lemma FirstPulled()
    ensures PullSize(2) == 7 && Pow2(2) == 4
    ensures var g := Pull(EmptyHeap(BootBits()), 2, 273);
            g.page == 276 && g.st.base == 276 && g.st.limit == 280 && g.st.lists == TwoLists([273], [274])
  {
    assert Pow2(2) == 4;
    RoundedStart();
    SlackPieces();
    hide Pow2, RoundUp, LayOut, TwoLists, BootBits;
  }

  lemma ThreePages()
    ensures PageCount(3 * PAGE_SIZE) == 4 && OrderFor(4) == 2
  {
  }

  /** The first pull takes pages 273 to 279 for an order-2 block at 276: 273 and 274 are slack. */
  lemma FirstPull()
    ensures var st := EmptyHeap(BootBits());
            var r := Kmalloc(st, 3 * PAGE_SIZE);
            && Inv(st) && r.st.base == 276 && r.st.limit == 280 && r.st.lists == TwoLists([273], [274])
  {
    var st := EmptyHeap(BootBits());
    EmptyHeapInv(BootBits());
    FirstFitIs(st.lists, 2, MAX_ORDER + 1);
    FirstSeven();
    FirstPulled();
    ThreePages();
    hide PageCount, OrderFor, PullSize, Pow2, Pull, Inv, FirstRun, TwoLists, BootBits;
    assert GetBlock(st, 2) == Some(Pull(st, 2, 273));
  }

  lemma OnePage()
    ensures PageCount(1) == 1 && OrderFor(1) == 0
  {
  }

  /** The next single page comes straight off its list. */
  lemma SecondTake(st: State)
    requires Inv(st) && st.lists == TwoLists([273], [274])
    ensures var t := Kmalloc(st, 1).st;
            && Inv(t) && t.base == st.base && t.limit == st.limit
            && t.lists == TwoLists([], [274]) && FirstFit(t.lists, 0) == 1
  {
    KmallocInv(st, 1);
    OnePage();
    hide PageCount, OrderFor, Inv, TwoLists;
    FirstFitIs(st.lists, 0, 0);
    TwoListsSteps([273], [274], 0);
    assert st.lists[0][1..] == [];
    FirstFitIs(TwoLists([], [274]), 0, 1);
  }

  /** The one after splits the slack pair, and freeing it does not put the halves together. */
  lemma SplitForGood(st: State)
    requires Inv(st) && st.base == 276 && st.limit == 280
    requires st.lists == TwoLists([], [274]) && FirstFit(st.lists, 0) == 1
    ensures !Undoable(st, 0)
    ensures var r := Kmalloc(st, 1);
            && PageOf(274 * PAGE_SIZE + HEADER_SIZE) == 274 && 274 in r.st.live && r.st.live[274] == 0
            && |r.st.lists| == MAX_ORDER + 1 && Kfree(r.st, 274).lists == TwoLists([274, 275], [])
  {
    OnePage();
    FreedAtOnce(st, 0);
    hide PageCount, OrderFor, Inv, Obtain;
    var popped := Unlink(st.lists, 1, 274);
    assert popped == TwoLists([], []);
    XorBit(274, 0);
    assert Buddy(274, 0) == 275;
    TwoListsSteps([], [], 275);
    TwoListsSteps([275], [], 274);
    assert [275] + [] == [275] && [274] + [275] == [274, 275];
    var split := Split(popped, 274, 1, 0);
    assert split == TwoLists([275], []);
    assert Coalesce(split, 274, 0, 276, 280) == Merged(split, 274, 0);
  }

  lemma TwoSteps(st: State, a: Op, b: Op)
    requires Inv(st) && Allowed(st, a) && Inv(Step(st, a)) && Allowed(Step(st, a), b)
    ensures AllowedRun(st, [a, b]) && Run(st, [a, b]) == Step(Step(st, a), b)
  {
    hide Step, Allowed;
    var t := Step(st, a);
    StepInv(st, a);
    StepInv(t, b);
    assert [a, b][1..] == [b] && [b][1..] == [];
    assert AllowedRun(Step(t, b), []) && Run(Step(t, b), []) == Step(t, b);
    assert AllowedRun(t, [b]) && Run(t, [b]) == Step(t, b);
  }

  /** The extents cover only aligned blocks, so a slack block once split stays split. From a
      state boot leaves, after one request for three pages and one for a byte, the next byte is cut from the slack
      pair 274, 275; freeing it leaves both on the single-page list, and the free blocks are not what
      they were. */
  lemma SlackStaysSplit()
    ensures var start := EmptyHeap(BootBits());
            var some := [Malloc(3 * PAGE_SIZE), Malloc(1)];
            var again := [Malloc(1), Free(274 * PAGE_SIZE + HEADER_SIZE)];
            && Booted(start.bits, [E820Entry(0, PAGES * PAGE_SIZE, 1)], KERNEL_START, KERNEL_END)
            && Inv(start) && AllowedRun(start, some)
            && var st := Run(start, some);
            && Inv(st) && |st.lists| == MAX_ORDER + 1 && FirstFit(st.lists, 0) == 1 && !Undoable(st, 0)
            && AllowedRun(st, again)
            && st.lists == TwoLists([], [274]) && Run(st, again).lists == TwoLists([274, 275], [])
  {
    BootBitsBooted();
    hide Inv, TwoLists, BootBits, Booted, Kfree, Kmalloc, Undoable, FirstFit, PageOf;
    FirstPull();
    var start := EmptyHeap(BootBits());
    var first := Step(start, Malloc(3 * PAGE_SIZE));
    StepInv(start, Malloc(3 * PAGE_SIZE));
    SecondTake(first);
    TwoSteps(start, Malloc(3 * PAGE_SIZE), Malloc(1));
    var st := Step(first, Malloc(1));
    SplitForGood(st);
    StepInv(st, Malloc(1));
    TwoSteps(st, Malloc(1), Free(274 * PAGE_SIZE + HEADER_SIZE));
  }

  // ----- Runs that reach the user region and the ramdisk's tail -------------------------

  /** A request for an order-k block, served by a pull at a known run. */
  lemma PulledAt(size: nat, order: nat, run: nat, block: nat)
    requires 0 < size < WORD && PageCount(size) <= 1024 && OrderFor(PageCount(size)) == order <= MAX_ORDER
    requires FirstRun(BootBits(), PullSize(order), 0) == Some(run)
    requires 0 < run <= block < run + Pow2(order) && Aligned(block, order)
    ensures var start := EmptyHeap(BootBits());
            && Inv(start) && AllowedRun(start, [Malloc(size)])
            && var st := Run(start, [Malloc(size)]);
            && Inv(st) && st.live == map[block := order] && st.owned == Range(run, run + PullSize(order))
  {
    var start := EmptyHeap(BootBits());
    EmptyHeapInv(BootBits());
    StepInv(start, Malloc(size));
    FirstFitIs(start.lists, order, MAX_ORDER + 1);
    RoomToRound(run, order);
    RoundUpMeaning(run, order, PAGE_BITS);
    AlignedUnique(RoundUp(run, order, PAGE_BITS), block, order);
    hide Inv, RoundUp, LayOut, PageCount, OrderFor, Pow2;
    assert GetBlock(start, order) == Some(Pull(start, order, run));
    assert [Malloc(size)][1..] == [];
  }

  /** Two multiples of 2^k less than 2^k apart are the same. */
  lemma AlignedUnique(x: nat, y: nat, k: nat)
    requires Aligned(x, k) && Aligned(y, k) && x < y + Pow2(k) && y < x + Pow2(k)
    ensures x == y
  {
    if k > 0 {
      AlignedUnique(x / 2, y / 2, k - 1);
    }
  }

  const USER_SIZE: nat := 128 * PAGE_SIZE - HEADER_SIZE
  const LARGEST: nat := 1024 * PAGE_SIZE - HEADER_SIZE

  lemma Powers()
    ensures Pow2(7) == 128 && Pow2(10) == 1024 && Aligned(0x280, 7) && Aligned(0x800, 10)
  {
    assert Pow2(4) == 16 && Pow2(7) == 128;
    AlignedIsMod(0x280, 7);
    AlignedIsMod(0x800, 10);
  }

  lemma Orders()
    ensures OrderFor(128) == 7 && OrderFor(1024) == 10
  {
    assert BitLength(1) == 1;
    assert BitLength(7) == 3;
    assert BitLength(31) == 5;
    assert BitLength(127) == 7;
    assert BitLength(511) == 9;
  }

  lemma Sizes()
    ensures PageCount(USER_SIZE) == 128 && OrderFor(128) == 7 && PullSize(7) == 255 && Pow2(7) == 128
    ensures PageCount(LARGEST) == 1024 && OrderFor(1024) == 10 && PullSize(10) == 2047 && Pow2(10) == 1024
    ensures Aligned(0x280, 7) && Aligned(0x800, 10)
  {
    Powers();
    Orders();
    hide Pow2, OrderFor, Aligned;
  }

  /** A taken page blocks every run over it. */
  lemma Blocked(t: nat, n: nat, p: nat)
    requires t <= p < t + n && p < PAGES && Reserved(p, KERNEL_START, KERNEL_END)
    ensures !Clear(BootBits(), t, n)
  {
    assert BootBits()[p];
  }

  lemma RunsFromBoot()
    ensures FirstRun(BootBits(), 255, 0) == Some(0x240) && FirstRun(BootBits(), 2047, 0) == Some(0x440)
  {
    forall t | 0 <= t < 0x240
      ensures !Clear(BootBits(), t, 255)
    {
      Blocked(t, 255, if t <= 0xFE then 0xFE else if t <= 0x110 then 0x110 else if t <= 0x200 then 0x200 else 0x23F);
    }
    forall t | 0 <= t < 0x440
      ensures !Clear(BootBits(), t, 2047)
    {
      Blocked(t, 2047, 0x43F);
    }
    FirstRunIs(BootBits(), 255, 0x240);
    FirstRunIs(BootBits(), 2047, 0x440);
  }

  /** Only pages up to 0x23F of the user region are reserved. From boot, one request for 128 pages is
      served from page 0x280 of it. */
  lemma HeapInUserRegion()
    ensures var start := EmptyHeap(BootBits());
            && Inv(start) && AllowedRun(start, [Malloc(USER_SIZE)])
            && var st := Run(start, [Malloc(USER_SIZE)]);
            && Inv(st) && st.live == map[0x280 := 7] && st.owned == Range(0x240, 0x33F)
  {
    Sizes();
    RunsFromBoot();
    hide BootBits, FirstRun, PageCount, OrderFor, PullSize, Pow2, Aligned, Inv, Run, AllowedRun;
    PulledAt(USER_SIZE, 7, 0x240, 0x280);
  }

  /** Only the ramdisk's first 512 blocks are reserved. From boot, one request of the largest size takes
      the page right behind them. */
  lemma HeapBehindRamdisk()
    ensures var start := EmptyHeap(BootBits());
            && Inv(start) && AllowedRun(start, [Malloc(LARGEST)])
            && Run(start, [Malloc(LARGEST)]).owned == Range(0x440, 0xC3F)
  {
    Sizes();
    RunsFromBoot();
    hide BootBits, FirstRun, PageCount, OrderFor, PullSize, Pow2, Aligned, Inv, Run, AllowedRun;
    PulledAt(LARGEST, 10, 0x440, 0x800);
  }
}
