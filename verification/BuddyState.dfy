/** The two allocator layers together: page bits below, buddy heap above. */
module BuddyState {
  import opened Wrappers
  import opened Machine
  import opened Bits
  import opened PmmSpec
  import opened Tiling
  import opened BuddySpec

  /** bits: pages in use below the heap; live: order of each block handed out, by page;
      owned: every page ever pulled; [base, limit): the pool extents, 0 when never set. */
  datatype State = State(bits: seq<bool>, lists: Lists, live: map<nat, nat>, owned: set<nat>, base: nat, limit: nat)

  ghost function LiveBlocks(live: map<nat, nat>): (s: set<Block>)
    ensures forall b :: b in s <==> b.page in live && live[b.page] == b.order
  {
    set p | p in live :: Block(p, live[p])
  }

  ghost function PagesOf(s: set<Block>): (f: set<nat>)
    ensures forall b :: b in s ==> b.Pages() <= f
    ensures forall p :: p in f ==> exists b :: b in s && b.Covers(p)
  {
    set b, p | b in s && p in b.Pages() :: p
  }

  ghost function LivePages(st: State): set<nat> {
    PagesOf(LiveBlocks(st.live))
  }

  ghost function FreePages(st: State): set<nat> {
    st.owned - LivePages(st)
  }

  /** Pulled pages are partitioned by the free blocks and the live blocks, and stay taken below. */
  ghost predicate Inv(st: State) {
    && |st.bits| == PAGES && st.bits[0]
    && st.base <= st.limit <= PAGES
    && (forall p :: p in st.owned ==> p < PAGES && st.bits[p])
    && Tiles(LiveBlocks(st.live), LivePages(st))
    && LivePages(st) <= st.owned
    && FreeTiles(st.lists, FreePages(st))
  }

  ghost function NoBlocks(): Lists {
    seq(MAX_ORDER + 1, _ => [])
  }

  /** The heap before its first allocation. */
  ghost function EmptyHeap(bits: seq<bool>): State {
    State(bits, NoBlocks(), map[], {}, 0, 0)
  }

  lemma EmptyHeapInv(bits: seq<bool>)
    requires |bits| == PAGES && bits[0]
    ensures Inv(EmptyHeap(bits))
  {
    var st := EmptyHeap(bits);
    assert LiveBlocks(st.live) == {};
    assert LivePages(st) == {};
    assert BlocksOf(st.lists) == {};
  }

  lemma TilesPagesOf(s: set<Block>, f: set<nat>)
    requires Tiles(s, f)
    ensures f == PagesOf(s)
  {
    forall p | p in f
      ensures p in PagesOf(s)
    {
      assert Covered(s, p);
    }
  }

  /** The headline form of the invariant. */
  lemma Partition(st: State)
    requires Inv(st)
    ensures Tiles(BlocksOf(st.lists) + LiveBlocks(st.live), st.owned)
    ensures BlocksOf(st.lists) !! LiveBlocks(st.live)
    ensures forall k :: 0 <= k <= MAX_ORDER ==> NoDup(st.lists[k])
    ensures forall j, k, p :: 0 <= j < |st.lists| && 0 <= k < |st.lists| && p in st.lists[j] && p in st.lists[k] ==> j == k
  {
    TilesUnion(BlocksOf(st.lists), FreePages(st), LiveBlocks(st.live), LivePages(st));
    assert FreePages(st) + LivePages(st) == st.owned;
    forall j, k, p | 0 <= j < |st.lists| && 0 <= k < |st.lists| && p in st.lists[j] && p in st.lists[k]
      ensures j == k
    {
      TilesUnique(BlocksOf(st.lists), FreePages(st), Block(p, j), Block(p, k), p);
    }
  }

  // ----- Taking a block --------------------------------------------------

  /** The smallest order from k up whose list is not empty; |ls| when there is none. */
  ghost function FirstFit(ls: Lists, k: nat): (j: nat)
    requires k <= |ls|
    ensures k <= j <= |ls|
    ensures j < |ls| ==> ls[j] != []
    ensures forall i :: k <= i < j ==> ls[i] == []
    decreases |ls| - k
  {
    if k == |ls| || ls[k] != [] then k else FirstFit(ls, k + 1)
  }

  lemma {:induction false} FirstFitIs(ls: Lists, k: nat, j: nat)
    requires k <= j <= |ls| && (forall i :: k <= i < j ==> ls[i] == []) && (j < |ls| ==> ls[j] != [])
    ensures FirstFit(ls, k) == j
    decreases j - k
  {
    if k < j {
      FirstFitIs(ls, k + 1, j);
    }
  }

  datatype Got = Got(page: nat, st: State)

  /** Pages pulled from below for one block: the block plus slack to align it. */
  function PullSize(order: nat): nat {
    2 * Pow2(order) - 1
  }

  /** A page address is 52 bits of page number above 12 bits of offset. */
  const PAGE_BITS: nat := 52

  lemma RoomToRound(run: nat, order: nat)
    requires run < PAGES && order <= MAX_ORDER
    ensures run + Pow2(order) <= Pow2(PAGE_BITS)
  {
    Pow2Monotone(order, 10);
    assert Pow2(10) == 1024;
    assert Pow2(16) == 65536;
    Pow2Monotone(16, PAGE_BITS);
  }

  /** The slack of a run around its aligned block: head pieces downwards, then tail pieces upwards. */
  ghost function LayOut(ls: Lists, run: nat, block: nat, order: nat): (r: Lists)
    requires run <= block < run + Pow2(order) && |ls| == MAX_ORDER + 1
    ensures |r| == |ls|
  {
    var head := block - run;
    var tail := Pow2(order) - 1 - head;
    PlaceUp(PlaceDown(ls, head, block, MAX_ORDER), tail, block + Pow2(order), MAX_ORDER)
  }

  /** The pulled run laid out: slack on the lists, the aligned block, tail pieces; extents widened. */
  ghost function Pull(st: State, order: nat, run: nat): (g: Got)
    requires order <= MAX_ORDER && |st.lists| == MAX_ORDER + 1
    requires run + PullSize(order) <= |st.bits| && |st.bits| == PAGES
  {
    RoomToRound(run, order);
    RoundUpMeaning(run, order, PAGE_BITS);
    var block := RoundUp(run, order, PAGE_BITS);
    Got(block, State(
          Fill(st.bits, run, PullSize(order)),
          LayOut(st.lists, run, block, order),
          st.live,
          st.owned + Range(run, run + PullSize(order)),
          if st.base == 0 || block < st.base then block else st.base,
          if st.limit == 0 || st.limit < block + Pow2(order) then block + Pow2(order) else st.limit))
  }

  /** buddy_get_block: pop the first fitting list and split, or pull from below, or fail. */
  ghost function GetBlock(st: State, order: nat): Option<Got>
    requires order <= MAX_ORDER && |st.lists| == MAX_ORDER + 1 && |st.bits| == PAGES
  {
    var j := FirstFit(st.lists, order);
    if j <= MAX_ORDER then
      var page := st.lists[j][0];
      Some(Got(page, st.(lists := Split(st.lists[j := st.lists[j][1..]], page, j, order))))
    else
      match FirstRun(st.bits, PullSize(order), 0)
      case None => None
      case Some(run) => Some(Pull(st, order, run))
  }

  /** The block obtained is a shaped block of owned pages that are now neither free nor live. */
  ghost predicate Carved(st: State, order: nat, g: Got) {
    var b := Block(g.page, order);
    && b.Shaped()
    && g.st.live == st.live && st.owned <= g.st.owned
    && g.st.base <= g.st.limit <= PAGES
    && |g.st.bits| == PAGES && g.st.bits[0]
    && (forall p :: p in g.st.owned ==> p < PAGES && g.st.bits[p])
    && b.Pages() <= FreePages(g.st)
    && FreeTiles(g.st.lists, FreePages(g.st) - b.Pages())
  }

  lemma PopIsUnlink(ls: Lists, j: nat)
    requires j < |ls| && ls[j] != []
    ensures ls[j := ls[j][1..]] == Unlink(ls, j, ls[j][0])
  {
  }

  lemma SplitCarves(st: State, order: nat)
    requires Inv(st) && order <= MAX_ORDER && FirstFit(st.lists, order) <= MAX_ORDER
    ensures Carved(st, order, GetBlock(st, order).value)
  {
    var j := FirstFit(st.lists, order);
    var b := Block(st.lists[j][0], j);
    var f := FreePages(st);
    PopIsUnlink(st.lists, j);
    assert b in BlocksOf(st.lists);
    UnlinkTiles(st.lists, f, b);
    SplitTiles(Unlink(st.lists, j, b.page), f - b.Pages(), b, order);
    var c := Block(b.page, order);
    assert f - b.Pages() + (b.Pages() - c.Pages()) == f - c.Pages();
  }

  /** The extents are the hull of the blocks pulled: a pull takes its block in, keeps what was inside,
      and moves an end only to the block's own. */
  lemma PullExtents(st: State, order: nat, run: nat)
    requires order <= MAX_ORDER && |st.lists| == MAX_ORDER + 1 && |st.bits| == PAGES && run + PullSize(order) <= PAGES
    ensures var g := Pull(st, order, run);
            && g.st.base <= g.page && g.page + Pow2(order) <= g.st.limit
            && (0 < st.base ==> g.st.base <= st.base) && st.limit <= g.st.limit
            && (g.st.base == g.page || g.st.base == st.base)
            && (g.st.limit == g.page + Pow2(order) || g.st.limit == st.limit)
  {
    hide RoundUp, LayOut, Fill, Pow2;
  }

  /** The pieces of a pulled run: where the aligned block and the slack around it lie. */
  lemma PullGeometry(order: nat, run: nat)
    requires order <= MAX_ORDER && 0 < run && run + PullSize(order) <= PAGES
    ensures var b := Block(RoundUp(run, order, PAGE_BITS), order);
            && b.Shaped() && run <= b.page < run + Pow2(order) && b.End() <= run + PullSize(order)
            && Aligned(b.End(), order)
  {
    hide Aligned, RoundUp, Pow2;
    RoomToRound(run, order);
    RoundUpMeaning(run, order, PAGE_BITS);
    AlignedShift(RoundUp(run, order, PAGE_BITS), order, order);
  }

  /** Head slack: fewer pages than the block, below a multiple of its size. */
  lemma HeadTiles(ls: Lists, f: set<nat>, run: nat, p: nat, order: nat)
    requires FreeTiles(ls, f) && order <= MAX_ORDER && Aligned(p, order)
    requires 0 < run <= p <= PAGES && p < run + Pow2(order) && Range(run, p) !! f
    ensures FreeTiles(PlaceDown(ls, p - run, p, MAX_ORDER), f + Range(run, p))
  {
    hide PlaceDown, Aligned, Low, Tiles;
    var head: nat := p - run;
    PlaceSkips(ls, head, p, order, MAX_ORDER);
    PlaceDownTiles(ls, f, head, p, order, run);
  }

  /** Tail slack: fewer pages than the block, above a multiple of its size. */
  lemma TailTiles(ls: Lists, f: set<nat>, p: nat, end: nat, order: nat)
    requires FreeTiles(ls, f) && order <= MAX_ORDER && Aligned(p, order)
    requires 0 < p <= end <= PAGES && end < p + Pow2(order) && Range(p, end) !! f
    ensures FreeTiles(PlaceUp(ls, end - p, p, MAX_ORDER), f + Range(p, end))
  {
    hide PlaceUp, Aligned, Low, Tiles;
    var tail: nat := end - p;
    PlaceSkips(ls, tail, p, order, MAX_ORDER);
    PlaceUpTiles(ls, f, tail, p, order, end);
  }

  lemma RangeAround(f: set<nat>, run: nat, b: Block, end: nat)
    requires run <= b.page && b.End() <= end && Range(run, end) !! f
    ensures b.Pages() <= Range(run, end)
    ensures Range(run, b.page) !! f && Range(b.End(), end) !! f + Range(run, b.page)
    ensures f + Range(run, b.page) + Range(b.End(), end) == f + (Range(run, end) - b.Pages())
  {
    RangeOfBlock(b);
    assert forall p :: p in Range(run, b.page) ==> p in Range(run, end);
    assert forall p :: p in Range(b.End(), end) ==> p in Range(run, end);
  }

  lemma LayOutTiles(ls: Lists, f: set<nat>, run: nat, b: Block, end: nat)
    requires FreeTiles(ls, f) && b.Shaped() && Aligned(b.End(), b.order)
    requires 0 < run <= b.page < run + Pow2(b.order) && end <= PAGES && end == run + PullSize(b.order)
    requires Range(run, b.page) !! f && Range(b.End(), end) !! f + Range(run, b.page)
    ensures FreeTiles(LayOut(ls, run, b.page, b.order), f + Range(run, b.page) + Range(b.End(), end))
  {
    hide PlaceUp, PlaceDown, Aligned, Tiles;
    HeadTiles(ls, f, run, b.page, b.order);
    TailTiles(PlaceDown(ls, b.page - run, b.page, MAX_ORDER), f + Range(run, b.page), b.End(), end, b.order);
  }

  /** For every order and run start: head pieces, aligned block and tail pieces tile the pulled run. */
  lemma PullTiles(st: State, f: set<nat>, order: nat, run: nat)
    requires FreeTiles(st.lists, f) && order <= MAX_ORDER && |st.bits| == PAGES
    requires 0 < run && run + PullSize(order) <= PAGES && Range(run, run + PullSize(order)) !! f
    ensures var g := Pull(st, order, run);
            var b := Block(g.page, order);
            && b.Shaped() && b.Pages() <= Range(run, run + PullSize(order))
            && FreeTiles(g.st.lists, f + (Range(run, run + PullSize(order)) - b.Pages()))
  {
    hide PlaceUp, PlaceDown, Aligned, FreeTiles, And;
    PullGeometry(order, run);
    var b := Block(RoundUp(run, order, PAGE_BITS), order);
    RangeAround(f, run, b, run + PullSize(order));
    LayOutTiles(st.lists, f, run, b, run + PullSize(order));
  }

  lemma PullFrame(st: State, order: nat, run: nat)
    requires Inv(st) && order <= MAX_ORDER && 0 < run && Clear(st.bits, run, PullSize(order))
    ensures var g := Pull(st, order, run);
            && g.st.live == st.live && st.owned <= g.st.owned
            && g.st.base <= g.st.limit <= PAGES
            && |g.st.bits| == PAGES && g.st.bits[0]
            && (forall p :: p in g.st.owned ==> p < PAGES && g.st.bits[p])
  {
    PullGeometry(order, run);
  }

  lemma PullCarves(st: State, order: nat, run: nat)
    requires Inv(st) && order <= MAX_ORDER && Clear(st.bits, run, PullSize(order))
    ensures Carved(st, order, Pull(st, order, run))
  {
    var pulled := Range(run, run + PullSize(order));
    assert run > 0 by { assert !st.bits[run]; }
    assert pulled !! st.owned;
    PullTiles(st, FreePages(st), order, run);
    PullFrame(st, order, run);
    PulledFree(st, Pull(st, order, run).st, pulled, Block(Pull(st, order, run).page, order).Pages());
  }

  lemma PulledFree(st: State, after: State, pulled: set<nat>, block: set<nat>)
    requires pulled !! st.owned && LivePages(st) <= st.owned && block <= pulled
    requires after.live == st.live && after.owned == st.owned + pulled
    ensures block <= FreePages(after)
    ensures FreePages(after) - block == FreePages(st) + (pulled - block)
  {
  }

  /** A run found below is new to the heap. */
  lemma RunIsNew(st: State, order: nat, run: nat)
    requires Inv(st) && order <= MAX_ORDER && FirstRun(st.bits, PullSize(order), 0) == Some(run)
    ensures 0 < run && run + PullSize(order) <= PAGES && Clear(st.bits, run, PullSize(order))
    ensures Range(run, run + PullSize(order)) !! st.owned
  {
    hide FreeTiles, Tiles;
    FirstRunMeaning(st.bits, PullSize(order), 0);
    assert run > 0 by { assert !st.bits[run]; }
  }

  lemma GetBlockCarves(st: State, order: nat)
    requires Inv(st) && order <= MAX_ORDER
    ensures GetBlock(st, order).Some? ==> Carved(st, order, GetBlock(st, order).value)
  {
    FirstRunMeaning(st.bits, PullSize(order), 0);
    if FirstFit(st.lists, order) <= MAX_ORDER {
      SplitCarves(st, order);
    } else if FirstRun(st.bits, PullSize(order), 0).Some? {
      PullCarves(st, order, FirstRun(st.bits, PullSize(order), 0).value);
    }
  }

  // ----- kmalloc and kfree -----------------------------------------------

  const HEADER_SIZE: nat := 16

  /** Pages requested for a size, in the source's 64-bit sum truncated to 32 bits. */
  function PageCount(size: nat): nat {
    ((size + HEADER_SIZE) % WORD + PAGE_SIZE - 1) % WORD / PAGE_SIZE % UINT32
  }

  /** The number of binary digits of v. */
  function BitLength(v: nat): nat {
    if v == 0 then 0 else 1 + BitLength(v / 2)
  }

  /** The order of the block that holds a number of pages. */
  function OrderFor(pages: nat): nat {
    if pages > 1 then BitLength(pages - 1) else 0
  }

  /** 2^BitLength(v) is the least power of two above v. */
  lemma {:induction false} BitLengthLeast(v: nat)
    ensures v < Pow2(BitLength(v))
    ensures forall k :: 0 <= k < BitLength(v) ==> Pow2(k) <= v
  {
    if v > 0 {
      BitLengthLeast(v / 2);
      forall k | 0 <= k < BitLength(v)
        ensures Pow2(k) <= v
      {
        if k > 0 {
          assert Pow2(k - 1) <= v / 2;
        }
      }
    }
  }

  lemma OrderBound(pages: nat)
    requires pages <= 1024
    ensures OrderFor(pages) <= MAX_ORDER
    ensures pages <= Pow2(OrderFor(pages))
    ensures forall k :: 0 <= k < OrderFor(pages) ==> Pow2(k) < pages
  {
    if pages > 1 {
      BitLengthLeast(pages - 1);
      assert Pow2(10) == 1024;
      assert OrderFor(pages) <= MAX_ORDER by {
        if OrderFor(pages) > MAX_ORDER {
          assert false;
        }
      }
    }
  }

  /** A pointer (0 on failure) with the state reached. */
  datatype Result = Result(pointer: nat, st: State)

  /** A block of the given order, now live. */
  ghost function Obtain(st: State, order: nat): Result
    requires order <= MAX_ORDER && |st.lists| == MAX_ORDER + 1 && |st.bits| == PAGES
  {
    match GetBlock(st, order)
    case None => Result(0, st)
    case Some(g) => Result(g.page * PAGE_SIZE + HEADER_SIZE, g.st.(live := g.st.live[g.page := order]))
  }

  ghost function Kmalloc(st: State, size: nat): Result
    requires |st.lists| == MAX_ORDER + 1 && |st.bits| == PAGES
  {
    if size == 0 || PageCount(size) > 1024 then Result(0, st)
    else
      OrderBound(PageCount(size));
      Obtain(st, OrderFor(PageCount(size)))
  }

  ghost function Kfree(st: State, page: nat): State
    requires page in st.live && st.live[page] <= MAX_ORDER && |st.lists| == MAX_ORDER + 1
  {
    var m := Coalesce(st.lists, page, st.live[page], st.base, st.limit);
    st.(lists := Push(m.lists, m.order, m.page), live := st.live - {page})
  }

  /** The page behind a pointer handed out. */
  function PageOf(pointer: nat): nat {
    pointer / PAGE_SIZE
  }

  lemma NotLiveTwice(st: State, b: Block)
    requires b.Pages() !! LivePages(st)
    ensures b.page !in st.live
  {
    if b.page in st.live {
      var c := Block(b.page, st.live[b.page]);
      assert c in LiveBlocks(st.live) && c.Covers(b.page) && b.Covers(b.page);
    }
  }

  lemma ObtainInv(st: State, order: nat)
    requires Inv(st) && order <= MAX_ORDER
    ensures var r := Obtain(st, order);
            && Inv(r.st)
            && (r.pointer == 0 ==> r.st == st)
            && (r.pointer != 0 ==>
                  && r.pointer == PageOf(r.pointer) * PAGE_SIZE + HEADER_SIZE
                  && PageOf(r.pointer) !in st.live
                  && r.st.live == st.live[PageOf(r.pointer) := order]
                  && Block(PageOf(r.pointer), order).Pages() !! LivePages(st))
  {
    GetBlockCarves(st, order);
    hide Tiles, FreeTiles, GetBlock;
    if GetBlock(st, order).Some? {
      var g := GetBlock(st, order).value;
      var b := Block(g.page, order);
      NotLiveTwice(g.st, b);
      GoLive(g.st, b);
      var after := g.st.(live := g.st.live[g.page := order]);
      assert LivePages(after) == LivePages(st) + b.Pages() && FreePages(after) == FreePages(g.st) - b.Pages();
      assert PageOf(g.page * PAGE_SIZE + HEADER_SIZE) == g.page;
    }
  }

  lemma KmallocInv(st: State, size: nat)
    requires Inv(st)
    ensures Inv(Kmalloc(st, size).st)
  {
    if size > 0 && PageCount(size) <= 1024 {
      OrderBound(PageCount(size));
      ObtainInv(st, OrderFor(PageCount(size)));
    }
  }

  lemma GoLive(st: State, b: Block)
    requires b.Shaped() && b.page !in st.live
    requires Tiles(LiveBlocks(st.live), LivePages(st)) && b.Pages() !! LivePages(st)
    ensures var live' := st.live[b.page := b.order];
            && LiveBlocks(live') == LiveBlocks(st.live) + {b}
            && PagesOf(LiveBlocks(live')) == LivePages(st) + b.Pages()
            && Tiles(LiveBlocks(live'), PagesOf(LiveBlocks(live')))
            && st.owned - PagesOf(LiveBlocks(live')) == FreePages(st) - b.Pages()
  {
    var live' := st.live[b.page := b.order];
    assert LiveBlocks(live') == LiveBlocks(st.live) + {b};
    TilesAdd(LiveBlocks(st.live), LivePages(st), b);
    TilesPagesOf(LiveBlocks(live'), LivePages(st) + b.Pages());
  }

  /** The live side of a free. */
  lemma Unlive(st: State, page: nat)
    requires Tiles(LiveBlocks(st.live), LivePages(st)) && page in st.live
    ensures var b := Block(page, st.live[page]);
            var live' := st.live - {page};
            && b.Shaped() && b.Pages() <= LivePages(st)
            && Tiles(LiveBlocks(live'), LivePages(st) - b.Pages())
            && PagesOf(LiveBlocks(live')) == LivePages(st) - b.Pages()
  {
    var b := Block(page, st.live[page]);
    assert b in LiveBlocks(st.live);
    TilesRemove(LiveBlocks(st.live), LivePages(st), b);
    assert LiveBlocks(st.live - {page}) == LiveBlocks(st.live) - {b};
    TilesPagesOf(LiveBlocks(st.live - {page}), LivePages(st) - b.Pages());
  }

  /** The free side of a free: the lists take up the block's pages. */
  lemma FreedTiles(ls: Lists, f: set<nat>, b: Block, base: nat, limit: nat)
    requires FreeTiles(ls, f) && b.Shaped() && b.Pages() !! f
    ensures var m := Coalesce(ls, b.page, b.order, base, limit);
            m.order <= MAX_ORDER && |m.lists| == MAX_ORDER + 1
            && FreeTiles(Push(m.lists, m.order, m.page), f + b.Pages())
  {
    hide Tiles, FreeTiles, Coalesce;
    assert |ls| == MAX_ORDER + 1 by { ListsCount(ls, f); }
    CoalesceTiles(ls, f, b, base, limit);
    var m := Coalesce(ls, b.page, b.order, base, limit);
    var grown := Block(m.page, m.order);
    PushTiles(m.lists, f + b.Pages() - grown.Pages(), grown);
    assert f + b.Pages() - grown.Pages() + grown.Pages() == f + b.Pages();
  }

  lemma ListsCount(ls: Lists, f: set<nat>)
    requires FreeTiles(ls, f)
    ensures |ls| == MAX_ORDER + 1
  {
  }

  lemma KfreeInv(st: State, page: nat)
    requires Inv(st) && page in st.live
    ensures st.live[page] <= MAX_ORDER && Inv(Kfree(st, page))
    ensures LivePages(Kfree(st, page)) == LivePages(st) - Block(page, st.live[page]).Pages()
  {
    var b := Block(page, st.live[page]);
    Unlive(st, page);
    FreedTiles(st.lists, FreePages(st), b, st.base, st.limit);
    hide Tiles, FreeTiles, Coalesce;
    assert FreePages(Kfree(st, page)) == FreePages(st) + b.Pages();
  }

  lemma LiveCovered(st: State, p: nat)
    requires p in st.live
    ensures p in LivePages(st)
  {
    var b := Block(p, st.live[p]);
    assert b in LiveBlocks(st.live) && b.Covers(p);
    assert b.Pages() <= LivePages(st);
  }
}
