/** Everything that can happen to the two allocators, in any order: heap calls by clients and page
    allocator calls by the rest of the kernel. */
module HeapRuns {
  import opened Wrappers
  import opened Machine
  import opened Bits
  import opened PmmSpec
  import opened Tiling
  import opened BuddySpec
  import opened BuddyState
  import opened BuddyTheorems

  /** TakePage and TakeRun are page allocations by other kernel code; GiveBack returns a page. */
  datatype Op = Malloc(size: nat) | Free(pointer: nat) | TakePage | TakeRun(pages: nat) | GiveBack(page: nat)

  ghost function TakeBelow(st: State, n: nat): State {
    match FirstRun(st.bits, n, 0)
    case None => st
    case Some(r) => st.(bits := Fill(st.bits, r, n))
  }

  /** Frees go to live blocks (or are null); the rest of the kernel returns only pages it could own. */
  ghost predicate Allowed(st: State, op: Op) {
    match op
    case Malloc(size) => size < WORD
    case Free(pointer) => pointer == 0 || (pointer % PAGE_SIZE == HEADER_SIZE && PageOf(pointer) in st.live)
    case TakePage => true
    case TakeRun(pages) => true
    case GiveBack(page) => 0 < page < PAGES && page !in st.owned
  }

  ghost function Step(st: State, op: Op): State
    requires Inv(st) && Allowed(st, op)
  {
    match op
    case Malloc(size) => Kmalloc(st, size).st
    case Free(pointer) => if pointer == 0 then st else KfreeInv(st, PageOf(pointer)); Kfree(st, PageOf(pointer))
    case TakePage => TakeBelow(st, 1)
    case TakeRun(pages) => if pages == 0 then st else TakeBelow(st, pages)
    case GiveBack(page) => st.(bits := st.bits[page := false])
  }

  lemma BitsOnly(st: State, bits: seq<bool>)
    requires Inv(st) && |bits| == PAGES && bits[0] && forall p :: p in st.owned ==> bits[p]
    ensures Inv(st.(bits := bits))
  {
  }

  /** The run taken by other code is new: never a page the heap holds. */
  lemma TakeBelowInv(st: State, n: nat)
    requires Inv(st) && n > 0
    ensures Inv(TakeBelow(st, n)) && TakeBelow(st, n).owned == st.owned
    ensures var f := FirstRun(st.bits, n, 0);
            f.Some? ==> forall p :: f.value <= p < f.value + n ==> p !in st.owned && p > 0
  {
    hide FreeTiles, Tiles;
    FirstRunMeaning(st.bits, n, 0);
    if FirstRun(st.bits, n, 0).Some? {
      BitsOnly(st, Fill(st.bits, FirstRun(st.bits, n, 0).value, n));
    }
  }

  /** Every step keeps the invariant and never gives up a pulled page. */
  lemma StepInv(st: State, op: Op)
    requires Inv(st) && Allowed(st, op)
    ensures Inv(Step(st, op)) && st.owned <= Step(st, op).owned
  {
    hide FreeTiles, Tiles, GetBlock, Coalesce;
    match op
    case Malloc(size) =>
      KmallocInv(st, size);
      KmallocGrows(st, size);
    case Free(pointer) =>
      if pointer != 0 {
        KfreeInv(st, PageOf(pointer));
      }
    case TakePage => TakeBelowInv(st, 1);
    case TakeRun(pages) =>
      if pages > 0 {
        TakeBelowInv(st, pages);
      }
    case GiveBack(page) => BitsOnly(st, st.bits[page := false]);
  }

  lemma KmallocGrows(st: State, size: nat)
    requires Inv(st)
    ensures st.owned <= Kmalloc(st, size).st.owned
  {
    if size > 0 && PageCount(size) <= 1024 {
      OrderBound(PageCount(size));
      GetBlockCarves(st, OrderFor(PageCount(size)));
    }
  }

  /** A run: every operation allowed where it happens. */
  ghost predicate AllowedRun(st: State, ops: seq<Op>)
    requires Inv(st)
    decreases |ops|
  {
    ops == [] || (Allowed(st, ops[0]) && (StepInv(st, ops[0]); AllowedRun(Step(st, ops[0]), ops[1..])))
  }

  ghost function Run(st: State, ops: seq<Op>): State
    requires Inv(st) && AllowedRun(st, ops)
    decreases |ops|
  {
    if ops == [] then st else StepInv(st, ops[0]); Run(Step(st, ops[0]), ops[1..])
  }

  /** After any run the pages ever pulled are tiled exactly by the free and the live blocks, are still
      taken below, and add up; with nothing live every one of them is free. */
  lemma {:induction false} RunsKeepTiling(st: State, ops: seq<Op>)
    requires Inv(st) && AllowedRun(st, ops)
    ensures var end := Run(st, ops);
            && Inv(end) && st.owned <= end.owned
            && Tiles(BlocksOf(end.lists) + LiveBlocks(end.live), end.owned)
            && BlocksOf(end.lists) !! LiveBlocks(end.live)
            && (forall p :: p in end.owned ==> p < PAGES && end.bits[p])
            && FreeCount(end.lists, |end.lists|) + |LivePages(end)| == |end.owned|
            && (end.live == map[] ==> FreeCount(end.lists, |end.lists|) == |end.owned|)
    decreases |ops|
  {
    hide Tiles, FreeTiles, Step;
    if ops == [] {
      Partition(st);
      Conservation(st);
    } else {
      StepInv(st, ops[0]);
      RunsKeepTiling(Step(st, ops[0]), ops[1..]);
    }
  }

  /** Operation op does not free the block at page. */
  ghost predicate Spares(op: Op, page: nat) {
    op.Free? && op.pointer != 0 ==> PageOf(op.pointer) != page
  }

  lemma StepKeepsLive(st: State, op: Op, page: nat)
    requires Inv(st) && Allowed(st, op) && page in st.live && Spares(op, page)
    ensures page in Step(st, op).live && Step(st, op).live[page] == st.live[page]
  {
    hide Tiles, FreeTiles, GetBlock, Coalesce;
    if op.Malloc? && op.size > 0 && PageCount(op.size) <= 1024 {
      OrderBound(PageCount(op.size));
      ObtainInv(st, OrderFor(PageCount(op.size)));
    }
  }

  /** A block stays live, with its order, over every run that does not free it: whatever other blocks
      are pulled, split or merged, no page of it is handed out again. */
  lemma {:induction false} RunsKeepLive(st: State, ops: seq<Op>, page: nat)
    requires Inv(st) && AllowedRun(st, ops) && page in st.live
    requires forall op :: op in ops ==> Spares(op, page)
    ensures page in Run(st, ops).live && Run(st, ops).live[page] == st.live[page]
    decreases |ops|
  {
    hide Inv, Step;
    if ops != [] {
      StepInv(st, ops[0]);
      StepKeepsLive(st, ops[0], page);
      RunsKeepLive(Step(st, ops[0]), ops[1..], page);
    }
  }

  // ----- Pages the heap can never own --------------------------------------------------

  /** A page taken below that is not the heap's stays so over a kmalloc: pulls take clear pages only. */
  lemma KmallocTakesClear(st: State, size: nat, p: nat)
    requires Inv(st) && p < PAGES && st.bits[p] && p !in st.owned
    ensures var t := Kmalloc(st, size).st; |t.bits| == PAGES && t.bits[p] && p !in t.owned
  {
    if size > 0 && PageCount(size) <= 1024 {
      OrderBound(PageCount(size));
      var order := OrderFor(PageCount(size));
      hide Inv, LayOut, RoundUp, PageCount, OrderFor, Split;
      InvBits(st);
      FirstRunMeaning(st.bits, PullSize(order), 0);
    }
  }

  lemma InvBits(st: State)
    requires Inv(st)
    ensures |st.lists| == MAX_ORDER + 1 && |st.bits| == PAGES
  {
  }

  /** A page that is taken and not the heap's is never the heap's, over any run that does not give it back. */
  lemma {:induction false} NeverOwned(st: State, ops: seq<Op>, p: nat)
    requires Inv(st) && AllowedRun(st, ops) && p < PAGES && st.bits[p] && p !in st.owned
    requires forall i :: 0 <= i < |ops| ==> ops[i] != GiveBack(p)
    ensures |Run(st, ops).bits| == PAGES && Run(st, ops).bits[p] && p !in Run(st, ops).owned
    decreases |ops|
  {
    if ops != [] {
      StepInv(st, ops[0]);
      StepNeverOwns(st, ops[0], p);
      NeverOwned(Step(st, ops[0]), ops[1..], p);
    }
  }

  lemma StepNeverOwns(st: State, op: Op, p: nat)
    requires Inv(st) && Allowed(st, op) && p < PAGES && st.bits[p] && p !in st.owned && op != GiveBack(p)
    ensures |Step(st, op).bits| == PAGES && Step(st, op).bits[p] && p !in Step(st, op).owned
  {
    StepInv(st, op);
    match op
    case Malloc(size) => KmallocTakesClear(st, size, p);
    case Free(pointer) =>
      if pointer != 0 {
        KfreeInv(st, PageOf(pointer));
      }
    case TakePage => TakeBelowInv(st, 1);
    case TakeRun(pages) =>
      if pages > 0 {
        TakeBelowInv(st, pages);
      }
    case GiveBack(page) =>
  }
}
