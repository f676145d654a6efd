/** The kernel heap: free lists threaded through page headers, on top of the page allocator.
    Block pointers are page numbers and 0 is the null pointer; kmalloc and kfree speak byte addresses. */
module Heap {
  import opened Wrappers
  import opened Machine
  import opened Bits
  import opened PmmSpec
  import opened Pmm
  import opened Tiling
  import opened BuddySpec
  import opened BuddyState
  import opened BuddyTheorems
  import opened Chains

  class BuddyHeap {
    const pmm: PageAllocator
    const freeLists: array<nat>
    const headers: array<Header>
    var allocatedBlocks: nat
    var poolBase: nat
    var poolLimit: nat
    ghost var lists: Lists
    ghost var live: map<nat, nat>
    ghost var owned: set<nat>

    ghost function Abs(): State
      reads this, pmm
    {
      State(pmm.bits, lists, live, owned, poolBase, poolLimit)
    }

    ghost predicate Threaded()
      reads this, freeLists, headers
    {
      && freeLists.Length == |lists| == MAX_ORDER + 1 && headers.Length == PAGES
      && Linked(headers[..], freeLists[..], lists)
    }

    /** Every block handed out still carries its own header. */
    ghost predicate LiveMarked()
      reads this, headers
    {
      headers.Length == PAGES && forall p :: p in live ==> p < PAGES && headers[p] == Header(0, MAGIC_ALLOC, live[p])
    }

    ghost predicate Valid()
      reads this, freeLists, headers, pmm, pmm.bitmap
    {
      && Threaded() && LiveMarked()
      && pmm.Valid()
      && Inv(Abs())
      && allocatedBlocks == |live|
    }

    /** buddy_init: empty lists over memory whose contents are arbitrary. */
    constructor (pages: PageAllocator, memory: array<Header>)
      requires pages.Valid() && memory.Length == PAGES
      ensures Valid() && fresh(freeLists) && pmm == pages && headers == memory
      ensures Abs() == EmptyHeap(pages.bits)
    {
      pmm, headers := pages, memory;
      freeLists := new nat[MAX_ORDER + 1](_ => 0);
      allocatedBlocks, poolBase, poolLimit := 0, 0, 0;
      lists, live, owned := NoBlocks(), map[], {};
      new;
      EmptyHeapInv(pmm.bits);
      assert forall k :: 0 <= k <= MAX_ORDER ==> Chain(headers[..], freeLists[..][k], lists[k], k);
    }

    // ----- List operations -----------------------------------------------

    method ListPush(order: nat, block: nat)
      requires Threaded() && order <= MAX_ORDER && 0 < block < PAGES && !Listed(lists, block)
      modifies this`lists, freeLists, headers
      ensures Threaded() && lists == Push(old(lists), order, block)
      ensures forall p :: 0 <= p < PAGES && p != block ==> headers[p] == old(headers[p])
    {
      PushLinked(headers[..], freeLists[..], lists, order, block);
      headers[block] := Header(freeLists[order], MAGIC_FREE, order);
      freeLists[order] := block;
      lists := Push(lists, order, block);
      assert headers[..] == old(headers[..])[block := headers[block]];
      assert freeLists[..] == old(freeLists[..])[order := block];
    }

    method ListPop(order: nat) returns (block: nat)
      requires Threaded() && order <= MAX_ORDER
      modifies this`lists, freeLists, headers
      ensures Threaded()
      ensures block == 0 ==> old(lists[order]) == [] && lists == old(lists) && headers[..] == old(headers[..])
      ensures block != 0 ==> old(lists[order]) != [] && block == old(lists[order])[0] < PAGES
                             && lists == Unlink(old(lists), order, block)
                             && headers[..] == Popped(old(headers[..]), block)
    {
      block := freeLists[order];
      assert Chain(headers[..], freeLists[..][order], lists[order], order);
      if block != 0 {
        PopLinked(headers[..], freeLists[..], lists, order);
        freeLists[order] := headers[block].freeNext;
        headers[block] := headers[block].(freeNext := 0);
        lists := Unlink(lists, order, block);
        assert headers[..] == Popped(old(headers[..]), block);
        assert freeLists[..] == old(freeLists[..])[order := freeLists[order]];
      }
    }

    /** Walks the list; the block leaves it exactly when it is found there. */
    method ListUnlink(order: nat, block: nat) returns (found: bool)
      requires Threaded() && order <= MAX_ORDER && block < PAGES
      modifies this`lists, freeLists, headers
      ensures Threaded()
      ensures found <==> block in old(lists[order])
      ensures lists == if found then Unlink(old(lists), order, block) else old(lists)
      ensures forall p :: 0 <= p < PAGES && p !in old(lists[order]) ==> headers[p] == old(headers[p])
    {
      hide Linked, Chain;
      ghost var s, i := lists[order], 0;
      LinkAt(headers[..], freeLists[..], lists, order, 0);
      var prev := 0;  // 0 stands for the list head itself
      var cur := freeLists[order];
      while cur != 0
        invariant Threaded() && lists == old(lists) && headers[..] == old(headers[..])
        invariant freeLists[..] == old(freeLists[..])
        invariant i <= |s| && cur == Next(s, i) && (prev == 0 <==> i == 0) && (i > 0 ==> prev == s[i - 1])
        invariant block !in s[..i]
        decreases |s| - i
      {
        LinkAt(headers[..], freeLists[..], lists, order, i);
        assert s[i] in s;
        if cur == block {
          if prev == 0 {
            PopLinked(headers[..], freeLists[..], lists, order);
            freeLists[order] := headers[cur].freeNext;
          } else {
            assert s[i - 1] in s;
            CutLinked(headers[..], freeLists[..], lists, order, i);
            headers[prev] := headers[prev].(freeNext := headers[cur].freeNext);
          }
          headers[cur] := headers[cur].(freeNext := 0);
          lists := Unlink(lists, order, block);
          assert prev == 0 ==> headers[..] == Popped(old(headers[..]), cur)
                               && freeLists[..] == old(freeLists[..])[order := old(headers[..])[cur].freeNext];
          assert prev != 0 ==> headers[..] == Skipped(old(headers[..]), prev, cur) && freeLists[..] == old(freeLists[..]);
          return true;
        }
        prev := cur;
        cur := headers[cur].freeNext;
        i := i + 1;
      }
      LinkAt(headers[..], freeLists[..], lists, order, i);
      assert s[..i] == s;
      return false;
    }

    // ----- buddy_get_block -----------------------------------------------

    /** Pushing a piece whose pages no listed block covers. */
    method PushPiece(order: nat, block: nat, ghost f: set<nat>)
      requires Threaded() && FreeTiles(lists, f)
      requires Block(block, order).Shaped() && Block(block, order).Pages() !! f
      modifies this`lists, freeLists, headers
      ensures Threaded() && lists == Push(old(lists), order, block)
      ensures FreeTiles(lists, f + Block(block, order).Pages())
      ensures forall p :: 0 <= p < PAGES && p != block ==> headers[p] == old(headers[p])
    {
      assert Block(block, order).Covers(block);
      NotListed(lists, f, block);
      PushTiles(lists, f, Block(block, order));
      ListPush(order, block);
    }

    /** One turn of the split loop: the upper half of a block of order j goes on its list. */
    method SplitOnce(block: nat, j: nat, ghost g: set<nat>)
      requires Threaded() && FreeTiles(lists, g)
      requires 0 < j && Block(block, j).Shaped() && Block(block, j).Pages() !! g
      modifies this`lists, freeLists, headers
      ensures Threaded() && lists == Push(old(lists), j - 1, block + Pow2(j - 1))
      ensures FreeTiles(lists, g + Upper(Block(block, j)).Pages())
      ensures Block(block, j - 1).Shaped() && Block(block, j - 1).Pages() <= Block(block, j).Pages()
      ensures Block(block, j - 1).Pages() !! g + Upper(Block(block, j)).Pages()
      ensures forall p :: 0 <= p < PAGES && p !in Block(block, j).Pages() ==> headers[p] == old(headers[p])
    {
      hide FreeTiles, Linked, Aligned, Xor;
      ghost var whole := Block(block, j);
      Halves(whole);
      var buddy := block + Pow2(j - 1);
      assert buddy in Upper(whole).Pages();
      PushPiece(j - 1, buddy, g);
    }

    /** The split loop: each upper half goes on its list. */
    method SplitDown(block: nat, top: nat, order: nat, ghost f: set<nat>)
      requires Threaded() && FreeTiles(lists, f)
      requires order <= top <= MAX_ORDER && Block(block, top).Shaped() && Block(block, top).Pages() !! f
      modifies this`lists, freeLists, headers
      ensures Threaded() && lists == Split(old(lists), block, top, order)
      ensures forall p :: 0 <= p < PAGES && p !in Block(block, top).Pages() ==> headers[p] == old(headers[p])
    {
      hide FreeTiles, Linked, Block.Shaped, Xor;
      var j := top;
      ghost var g, goal := f, Split(lists, block, top, order);
      while j > order
        invariant order <= j <= top && Threaded()
        invariant Split(lists, block, j, order) == goal
        invariant Block(block, j).Shaped() && Block(block, j).Pages() <= Block(block, top).Pages()
        invariant FreeTiles(lists, g) && Block(block, j).Pages() !! g
        invariant forall p :: 0 <= p < PAGES && p !in Block(block, top).Pages() ==> headers[p] == old(headers[p])
      {
        ghost var upper := Upper(Block(block, j));
        SplitOnce(block, j, g);
        g := g + upper.Pages();
        j := j - 1;
      }
    }

    /** A piece pushed at one end of the range still to be laid out. */
    method PushLow(order: nat, block: nat, ghost f: set<nat>, ghost lo: nat)
      requires Threaded() && FreeTiles(lists, f)
      requires Block(block, order).Shaped() && lo <= block && Range(lo, block + Pow2(order)) !! f
      modifies this`lists, freeLists, headers
      ensures Threaded() && lists == Push(old(lists), order, block)
      ensures FreeTiles(lists, f + Block(block, order).Pages())
      ensures Range(lo, block) !! f + Block(block, order).Pages()
      ensures forall p :: 0 <= p < PAGES && p != block ==> headers[p] == old(headers[p])
    {
      RangeOfBlock(Block(block, order));
      RangeJoin(f, lo, block, block + Pow2(order));
      PushPiece(order, block, f);
    }

    method PushHigh(order: nat, block: nat, ghost f: set<nat>, ghost hi: nat)
      requires Threaded() && FreeTiles(lists, f)
      requires Block(block, order).Shaped() && block + Pow2(order) <= hi && Range(block, hi) !! f
      modifies this`lists, freeLists, headers
      ensures Threaded() && lists == Push(old(lists), order, block)
      ensures FreeTiles(lists, f + Block(block, order).Pages())
      ensures Range(block + Pow2(order), hi) !! f + Block(block, order).Pages()
      ensures forall p :: 0 <= p < PAGES && p != block ==> headers[p] == old(headers[p])
    {
      RangeOfBlock(Block(block, order));
      RangeJoin(f, block, block + Pow2(order), hi);
      PushPiece(order, block, f);
    }

    /** One turn of the downward loop: the piece of order bit, if rem has one, goes on its list. */
    method PieceDown(rem: nat, p: nat, bit: nat, ghost order: nat, ghost f: set<nat>, ghost lo: nat)
      returns (q: nat, ghost g: set<nat>)
      requires Threaded() && FreeTiles(lists, f) && bit < MAX_ORDER && order <= MAX_ORDER && rem < Pow2(order)
      requires 0 < lo && lo + Low(rem, bit + 1) == p <= PAGES && Aligned(p, Min(bit + 1, order)) && Range(lo, p) !! f
      modifies this`lists, freeLists, headers
      ensures Threaded() && PlaceDown(lists, rem, q, bit) == PlaceDown(old(lists), rem, p, bit + 1)
      ensures FreeTiles(lists, g) && Range(lo, q) !! g
      ensures lo + Low(rem, bit) == q <= p && Aligned(q, Min(bit, order))
      ensures forall i :: 0 <= i < PAGES && i !in Range(lo, p) ==> headers[i] == old(headers[i])
    {
      hide FreeTiles, Linked, Aligned, Low, Bit;
      NextBelow(rem, p, bit, order, lo);
      q, g := p, f;
      if And(rem, Pow2(bit)) != 0 {
        q := p - Pow2(bit);
        PushLow(bit, q, f, lo);
        g := f + Block(q, bit).Pages();
      }
    }

    /** Head slack: pieces laid out from the aligned base down, highest bit first. */
    method LayDown(rem: nat, base: nat, ghost order: nat, ghost f: set<nat>, ghost lo: nat)
      requires Threaded() && FreeTiles(lists, f)
      requires order <= MAX_ORDER && rem < Pow2(order) && Aligned(base, order)
      requires 0 < lo && lo + rem == base <= PAGES && Range(lo, base) !! f
      modifies this`lists, freeLists, headers
      ensures Threaded() && lists == PlaceDown(old(lists), rem, base, MAX_ORDER)
      ensures forall p :: 0 <= p < PAGES && p !in Range(lo, base) ==> headers[p] == old(headers[p])
    {
      hide FreeTiles, Linked, Aligned, Low, Bit;
      var p: nat, n: nat := base, MAX_ORDER;
      ghost var g, goal := f, PlaceDown(lists, rem, base, MAX_ORDER);
      PlaceSkips(lists, rem, base, order, MAX_ORDER);
      while n > 0
        invariant n <= MAX_ORDER && Threaded()
        invariant lo + Low(rem, n) == p <= base && Aligned(p, Min(n, order))
        invariant PlaceDown(lists, rem, p, n) == goal
        invariant FreeTiles(lists, g) && Range(lo, p) !! g
        invariant forall q :: 0 <= q < PAGES && q !in Range(lo, base) ==> headers[q] == old(headers[q])
      {
        p, g := PieceDown(rem, p, n - 1, order, g, lo);
        n := n - 1;
      }
    }

    /** One turn of the upward loop. */
    method PieceUp(rem: nat, p: nat, bit: nat, ghost order: nat, ghost f: set<nat>, ghost hi: nat)
      returns (q: nat, ghost g: set<nat>)
      requires Threaded() && FreeTiles(lists, f) && bit < MAX_ORDER && order <= MAX_ORDER && rem < Pow2(order)
      requires 0 < p && p + Low(rem, bit + 1) == hi <= PAGES && Aligned(p, Min(bit + 1, order)) && Range(p, hi) !! f
      modifies this`lists, freeLists, headers
      ensures Threaded() && PlaceUp(lists, rem, q, bit) == PlaceUp(old(lists), rem, p, bit + 1)
      ensures FreeTiles(lists, g) && Range(q, hi) !! g
      ensures p <= q && q + Low(rem, bit) == hi && Aligned(q, Min(bit, order))
      ensures forall i :: 0 <= i < PAGES && i !in Range(p, hi) ==> headers[i] == old(headers[i])
    {
      hide FreeTiles, Linked, Aligned, Low, Bit;
      NextAbove(rem, p, bit, order, hi);
      q, g := p, f;
      if And(rem, Pow2(bit)) != 0 {
        PushHigh(bit, p, f, hi);
        g := f + Block(p, bit).Pages();
        q := p + Pow2(bit);
      }
    }

    /** Tail slack: pieces laid out from the aligned end up, highest bit first. */
    method LayUp(rem: nat, start: nat, ghost order: nat, ghost f: set<nat>, ghost hi: nat)
      requires Threaded() && FreeTiles(lists, f)
      requires order <= MAX_ORDER && rem < Pow2(order) && Aligned(start, order)
      requires 0 < start && start + rem == hi <= PAGES && Range(start, hi) !! f
      modifies this`lists, freeLists, headers
      ensures Threaded() && lists == PlaceUp(old(lists), rem, start, MAX_ORDER)
      ensures forall p :: 0 <= p < PAGES && p !in Range(start, hi) ==> headers[p] == old(headers[p])
    {
      hide FreeTiles, Linked, Aligned, Low, Bit;
      var p: nat, n: nat := start, MAX_ORDER;
      ghost var g, goal := f, PlaceUp(lists, rem, start, MAX_ORDER);
      PlaceSkips(lists, rem, start, order, MAX_ORDER);
      while n > 0
        invariant n <= MAX_ORDER && Threaded()
        invariant start <= p && p + Low(rem, n) == hi && Aligned(p, Min(n, order))
        invariant PlaceUp(lists, rem, p, n) == goal
        invariant FreeTiles(lists, g) && Range(p, hi) !! g
        invariant forall q :: 0 <= q < PAGES && q !in Range(start, hi) ==> headers[q] == old(headers[q])
      {
        p, g := PieceUp(rem, p, n - 1, order, g, hi);
        n := n - 1;
      }
    }

    method LayHead(run: nat, base: nat, order: nat, ghost f: set<nat>)
      requires Threaded() && FreeTiles(lists, f) && order <= MAX_ORDER && Aligned(base, order)
      requires 0 < run <= base <= PAGES && base < run + Pow2(order) && Range(run, base) !! f
      modifies this`lists, freeLists, headers
      ensures Threaded() && lists == PlaceDown(old(lists), base - run, base, MAX_ORDER)
      ensures FreeTiles(lists, f + Range(run, base))
      ensures forall p :: 0 <= p < PAGES && p !in Range(run, base) ==> headers[p] == old(headers[p])
    {
      HeadTiles(lists, f, run, base, order);
      LayDown(base - run, base, order, f, run);
    }

    method LayTail(start: nat, end: nat, order: nat, ghost f: set<nat>)
      requires Threaded() && FreeTiles(lists, f) && order <= MAX_ORDER && Aligned(start, order)
      requires 0 < start <= end <= PAGES && end < start + Pow2(order) && Range(start, end) !! f
      modifies this`lists, freeLists, headers
      ensures Threaded() && lists == PlaceUp(old(lists), end - start, start, MAX_ORDER)
      ensures FreeTiles(lists, f + Range(start, end))
      ensures forall p :: 0 <= p < PAGES && p !in Range(start, end) ==> headers[p] == old(headers[p])
    {
      TailTiles(lists, f, start, end, order);
      LayUp(end - start, start, order, f, end);
    }

    /** All the slack of a run around its aligned base. */
    method LaySlack(run: nat, base: nat, order: nat, ghost f: set<nat>, end: nat)
      requires Threaded() && FreeTiles(lists, f) && order <= MAX_ORDER
      requires Block(base, order).Shaped() && Aligned(base + Pow2(order), order)
      requires 0 < run <= base < run + Pow2(order) && end == run + PullSize(order) <= PAGES
      requires Range(run, end) !! f
      modifies this`lists, freeLists, headers
      ensures Threaded() && lists == LayOut(old(lists), run, base, order)
      ensures FreeTiles(lists, f + (Range(run, end) - Block(base, order).Pages()))
      ensures forall p :: 0 <= p < PAGES && p !in Range(run, end) ==> headers[p] == old(headers[p])
    {
      hide FreeTiles, Linked, Aligned, PlaceUp, PlaceDown;
      RangeAround(f, run, Block(base, order), end);
      LayHead(run, base, order, f);
      LayTail(base + Pow2(order), end, order, f + Range(run, base));
    }

    /** The aligned block goes on its list and straight off again. */
    method PushPop(order: nat, base: nat, ghost f: set<nat>) returns (block: nat)
      requires Threaded() && FreeTiles(lists, f)
      requires Block(base, order).Shaped() && Block(base, order).Pages() !! f
      modifies this`lists, freeLists, headers
      ensures Threaded() && lists == old(lists) && block == base
      ensures forall p :: 0 <= p < PAGES && p != base ==> headers[p] == old(headers[p])
    {
      UnlinkPush(lists, order, base);
      PushPiece(order, base, f);
      block := ListPop(order);
    }

    /** Takes a run over: slack on the lists, extents widened, the aligned block returned. */
    method AdoptRun(run: nat, order: nat, ghost f: set<nat>) returns (block: nat)
      requires Threaded() && FreeTiles(lists, f) && order <= MAX_ORDER
      requires 0 < run && run + PullSize(order) <= PAGES && Range(run, run + PullSize(order)) !! f
      modifies this`lists, this`owned, this`poolBase, this`poolLimit, freeLists, headers
      ensures Threaded()
      ensures block == RoundUp(run, order, PAGE_BITS) && run <= block < run + Pow2(order)
      ensures lists == LayOut(old(lists), run, block, order)
      ensures owned == old(owned) + Range(run, run + PullSize(order))
      ensures poolBase == if old(poolBase) == 0 || block < old(poolBase) then block else old(poolBase)
      ensures poolLimit == if old(poolLimit) == 0 || old(poolLimit) < block + Pow2(order) then block + Pow2(order)
                           else old(poolLimit)
      ensures forall p :: 0 <= p < PAGES && p !in Range(run, run + PullSize(order)) ==> headers[p] == old(headers[p])
    {
      hide FreeTiles, Linked, Aligned, PlaceUp, PlaceDown, LayOut, RoundUp, Pow2;
      var pages := Pow2(order);
      var end := run + PullSize(order);
      PullGeometry(order, run);
      var base := RoundUp(run, order, PAGE_BITS);
      RangeAround({}, run, Block(base, order), end);
      LaySlack(run, base, order, f, end);
      owned := owned + Range(run, end);
      if poolBase == 0 || base < poolBase {
        poolBase := base;
      }
      if poolLimit == 0 || base + pages > poolLimit {
        poolLimit := base + pages;
      }
      block := PushPop(order, base, f + (Range(run, end) - Block(base, order).Pages()));
    }

    /** Pulls an aligned block from the page allocator, its slack going on the lists. */
    method PullBlock(order: nat) returns (block: nat)
      requires Threaded() && pmm.Valid() && Inv(Abs()) && order <= MAX_ORDER
      modifies this`lists, this`owned, this`poolBase, this`poolLimit, freeLists, headers, pmm, pmm.bitmap
      ensures Threaded() && pmm.Valid()
      ensures match FirstRun(old(pmm.bits), PullSize(order), 0)
              case None => block == 0 && Abs() == old(Abs())
              case Some(run) => Got(block, Abs()) == Pull(old(Abs()), order, run)
      ensures forall p :: 0 <= p < PAGES && (p in old(owned) || p !in owned) ==> headers[p] == old(headers[p])
    {
      hide FreeTiles, Linked, LayOut, RoundUp, Pow2, Clear, Tiles, Fill, FirstRun, LivePages;
      ghost var was := Abs();
      var pages := Pow2(order);
      var slack := pages - 1;
      var address := pmm.AllocContiguous(pages + slack);
      if address == 0 {
        return 0;
      }
      var run := address / PAGE_SIZE;
      RunIsNew(was, order, run);
      block := AdoptRun(run, order, FreePages(was));
    }

    method GetBlock(order: nat) returns (block: nat)
      requires Threaded() && pmm.Valid() && Inv(Abs()) && order <= MAX_ORDER
      modifies this`lists, this`owned, this`poolBase, this`poolLimit, freeLists, headers, pmm, pmm.bitmap
      ensures Threaded() && pmm.Valid()
      ensures match BuddyState.GetBlock(old(Abs()), order)
              case None => block == 0 && Abs() == old(Abs())
              case Some(g) => block == g.page && Abs() == g.st
      ensures forall p :: 0 <= p < PAGES && (p in LivePages(old(Abs())) || p !in owned) ==> headers[p] == old(headers[p])
    {
      hide Inv, Linked, LivePages, FreeTiles, Split, Pull;
      InvShape(Abs());
      ghost var f := FreePages(Abs());
      var j := order;
      while j <= MAX_ORDER
        invariant order <= j <= MAX_ORDER + 1
        invariant Threaded() && pmm.Valid() && Abs() == old(Abs()) && headers[..] == old(headers[..])
        invariant forall i :: order <= i < j ==> lists[i] == []
      {
        block := ListPop(j);
        if block != 0 {
          FirstFitIs(old(lists), order, j);
          PopIsUnlink(old(lists), j);
          PoppedBlock(old(Abs()), j);
          SplitDown(block, j, order, f - Block(block, j).Pages());
          return;
        }
        j := j + 1;
      }
      FirstFitIs(lists, order, MAX_ORDER + 1);
      block := PullBlock(order);
    }

    // ----- kmalloc, kfree, heap_stats ------------------------------------

    /** Marks a block obtained from the lists as handed out. */
    method HandOut(block: nat, order: nat, ghost was: State)
      requires Threaded() && Inv(was) && order <= MAX_ORDER
      requires BuddyState.GetBlock(was, order) == Some(Got(block, Abs()))
      requires LiveMarked() && pmm.Valid() && allocatedBlocks == |live|
      modifies this`live, this`allocatedBlocks, headers
      ensures Valid() && block != 0
      ensures Result(block * PAGE_SIZE + HEADER_SIZE, Abs()) == Obtain(was, order)
      ensures forall p :: 0 <= p < PAGES && p != block ==> headers[p] == old(headers[p])
    {
      hide Inv, Tiles, Linked, BuddyState.GetBlock;
      NewBlock(was, order);
      ghost var h := headers[..];
      LinkedFrame(h, h[block := Header(0, MAGIC_ALLOC, order)], freeLists[..], lists);
      headers[block] := Header(0, MAGIC_ALLOC, order);
      assert headers[..] == h[block := Header(0, MAGIC_ALLOC, order)];
      assert freeLists[..] == old(freeLists[..]);
      assert Threaded();
      live := live[block := order];
      allocatedBlocks := allocatedBlocks + 1;
    }

    /** The part of kmalloc after the order is known. */
    method ObtainBlock(order: nat) returns (pointer: nat)
      requires Valid() && order <= MAX_ORDER
      modifies this, freeLists, headers, pmm, pmm.bitmap
      ensures Valid()
      ensures Result(pointer, Abs()) == Obtain(old(Abs()), order)
      ensures forall p :: 0 <= p < PAGES && (p in LivePages(old(Abs())) || p !in owned) ==> headers[p] == old(headers[p])
    {
      hide Inv, Linked, BuddyState.GetBlock, FreePages, LivePages;
      ghost var was := Abs();
      InvShape(was);
      NewBlock(was, order);
      var block := GetBlock(order);
      forall p | p in live
        ensures p < PAGES && headers[p] == Header(0, MAGIC_ALLOC, live[p])
      {
        LiveCovered(was, p);
      }
      if block == 0 {
        return 0;
      }
      HandOut(block, order, was);
      return block * PAGE_SIZE + HEADER_SIZE;
    }

    method Kmalloc(size: nat) returns (pointer: nat)
      requires Valid() && size < WORD
      modifies this, freeLists, headers, pmm, pmm.bitmap
      ensures Valid()
      ensures Result(pointer, Abs()) == BuddyState.Kmalloc(old(Abs()), size)
      ensures forall p :: 0 <= p < PAGES && (p in LivePages(old(Abs())) || p !in owned) ==> headers[p] == old(headers[p])
    {
      hide Linked, Inv, Obtain, BitLength;
      InvShape(Abs());
      if size == 0 {
        return 0;
      }
      var total := (size + HEADER_SIZE) % WORD;
      var pages := (total + PAGE_SIZE - 1) % WORD / PAGE_SIZE % UINT32;
      if pages > 1024 {
        return 0;
      }
      OrderBound(pages);
      var order := FindOrder(pages);
      if order > MAX_ORDER {  // never: 1024 pages are order 10
        order := MAX_ORDER;
      }
      pointer := ObtainBlock(order);
    }

    /** The bit-length loop. */
    method FindOrder(pages: nat) returns (order: nat)
      ensures order == OrderFor(pages)
    {
      order := 0;
      if pages > 1 {
        var v: nat := pages - 1;
        while v != 0
          invariant order + BitLength(v) == BitLength(pages - 1)
        {
          v := v / 2;
          order := order + 1;
        }
      }
    }

    /** The merge loop: unlink siblings while they are really listed. Header words at the sibling's
        address are only a hint; the list decides. */
    method Merge(block: nat, k: nat, ghost f: set<nat>) returns (h: nat, order: nat)
      requires Threaded() && FreeTiles(lists, f) && poolLimit <= PAGES
      requires Block(block, k).Shaped() && Block(block, k).Pages() !! f
      modifies this`lists, freeLists, headers
      ensures Threaded()
      ensures Merged(lists, h, order) == Coalesce(old(lists), block, k, poolBase, poolLimit)
      ensures forall p :: 0 <= p < PAGES && p !in f ==> headers[p] == old(headers[p])
    {
      hide FreeTiles, Linked, Aligned, Xor, Pow2;
      h, order := block, k;
      ghost var g, goal := f, Coalesce(lists, block, k, poolBase, poolLimit);
      while order < MAX_ORDER
        invariant order <= MAX_ORDER && Threaded()
        invariant Coalesce(lists, h, order, poolBase, poolLimit) == goal
        invariant FreeTiles(lists, g) && g <= f && Block(h, order).Shaped() && Block(h, order).Pages() !! g
        invariant forall p :: 0 <= p < PAGES && p !in f ==> headers[p] == old(headers[p])
      {
        var buddy := Xor(h, Pow2(order));
        if buddy < poolBase || buddy >= poolLimit {
          break;
        }
        HintMatches(headers[..], freeLists[..], lists, order, buddy);
        if headers[buddy].magic != MAGIC_FREE || headers[buddy].order != order {
          break;
        }
        ghost var b, s := Block(h, order), Block(buddy, order);
        ListedOnly(lists, g, order);
        ghost var before := lists;
        var found := ListUnlink(order, buddy);
        if !found {
          break;
        }
        MergedUp(before, g, b, s);
        UnlinkTiles(before, g, s);
        g := g - s.Pages();
        if buddy < h {
          h := buddy;
        }
        order := order + 1;
      }
    }

    /** A null pointer and a header that fails the checks change nothing. A header that passes them must
        be that of a live block: a stale or forged one is the caller's error, not always detected. */
    method Kfree(pointer: nat)
      requires Valid()
      requires pointer != 0 ==> pointer % PAGE_SIZE == HEADER_SIZE && PageOf(pointer) < PAGES
      requires pointer != 0 && headers[PageOf(pointer)].magic == 0x414C_4F43 && headers[PageOf(pointer)].order <= 10 ==>
                 PageOf(pointer) in live
      modifies this, freeLists, headers
      ensures Valid()
      ensures pointer == 0 || old(headers[PageOf(pointer)].magic != 0x414C_4F43 || headers[PageOf(pointer)].order > 10) ==>
                Abs() == old(Abs()) && headers[..] == old(headers[..])
      ensures pointer != 0 && old(headers[PageOf(pointer)].magic == 0x414C_4F43 && headers[PageOf(pointer)].order <= 10) ==>
                old(Abs()).live[PageOf(pointer)] <= MAX_ORDER && |old(Abs()).lists| == MAX_ORDER + 1
                && Abs() == BuddyState.Kfree(old(Abs()), PageOf(pointer))
      ensures forall p :: 0 <= p < PAGES && (p in LivePages(Abs()) || p !in owned) ==> headers[p] == old(headers[p])
    {
      if pointer == 0 {
        return;
      }
      var block := (pointer - HEADER_SIZE) / PAGE_SIZE;
      assert block == PageOf(pointer);
      if headers[block].magic != MAGIC_ALLOC {
        return;
      }
      if headers[block].order > MAX_ORDER {
        return;
      }
      FreeLive(block);
    }

    /** Merges a block being freed and lists the result. */
    method MergeBack(block: nat, ghost was: State)
      requires Threaded() && poolBase == was.base && poolLimit == was.limit && lists == was.lists
      requires Inv(was) && block in was.live && block < PAGES && headers[block].order == was.live[block]
      modifies this`lists, freeLists, headers
      ensures Threaded() && was.live[block] <= MAX_ORDER && |was.lists| == MAX_ORDER + 1
      ensures lists == BuddyState.Kfree(was, block).lists
      ensures forall p :: 0 <= p < PAGES && p !in FreePages(was) + Block(block, was.live[block]).Pages() ==>
                headers[p] == old(headers[p])
    {
      hide Inv, FreeTiles, Linked, Coalesce, FreePages;
      InvShape(was);
      FreedReady(was, block);
      var h, order := Merge(block, headers[block].order, FreePages(was));
      FreedPush(was, block);
      ListPush(order, h);
    }

    /** The part of kfree after the checks. */
    method FreeLive(block: nat)
      requires Valid() && block in live
      modifies this, freeLists, headers
      ensures Valid()
      ensures old(Abs()).live[block] <= MAX_ORDER && |old(Abs()).lists| == MAX_ORDER + 1
      ensures Abs() == BuddyState.Kfree(old(Abs()), block)
      ensures forall p :: 0 <= p < PAGES && (p in LivePages(Abs()) || p !in owned) ==> headers[p] == old(headers[p])
    {
      hide Inv, Linked, Coalesce, FreePages, LivePages;
      ghost var was := Abs();
      InvShape(was);
      KfreeInv(was, block);
      FreedReady(was, block);
      FreedFrame(was, block);
      allocatedBlocks := allocatedBlocks - 1;
      MergeBack(block, was);
      live := live - {block};
      forall p | p in live
        ensures p < PAGES && headers[p] == Header(0, MAGIC_ALLOC, live[p])
      {
        LiveCovered(Abs(), p);
      }
    }

    /** Length of one list, by walking it. */
    method CountList(order: nat) returns (count: nat)
      requires Threaded() && order <= MAX_ORDER
      ensures count == |lists[order]|
    {
      hide Linked;
      count := 0;
      LinkAt(headers[..], freeLists[..], lists, order, 0);
      var cur := freeLists[order];
      while cur != 0
        invariant count <= |lists[order]| && cur == Next(lists[order], count)
        decreases |lists[order]| - count
      {
        LinkAt(headers[..], freeLists[..], lists, order, count);
        count := count + 1;
        cur := headers[cur].freeNext;
      }
      LinkAt(headers[..], freeLists[..], lists, order, count);
    }

    /** The loop over the orders. */
    method SumLists() returns (freePages: nat, largest: int)
      requires Threaded()
      ensures freePages == FreeCount(lists, |lists|)
      ensures -1 <= largest <= MAX_ORDER && (largest >= 0 ==> lists[largest] != [])
      ensures forall k :: largest < k <= MAX_ORDER ==> lists[k] == []
    {
      hide Linked;
      freePages, largest := 0, -1;
      var i: nat := 0;
      while i <= MAX_ORDER
        invariant i <= MAX_ORDER + 1 && freePages == FreeCount(lists, i)
        invariant -1 <= largest < i && (largest >= 0 ==> lists[largest] != [])
        invariant forall k :: largest < k < i ==> lists[k] == []
      {
        var count := CountList(i);
        if count > 0 {
          freePages := freePages + count * Pow2(i);
          largest := i;
        }
        i := i + 1;
      }
    }

    /** Free pages, largest free order (-1 when there is none) and live blocks. */
    method HeapStats() returns (freePages: nat, largest: int, blocks: nat)
      requires Valid()
      ensures freePages + |LivePages(Abs())| == |owned| && freePages == |FreePages(Abs())|
      ensures blocks == |live|
      ensures -1 <= largest <= MAX_ORDER && (largest >= 0 ==> lists[largest] != [])
      ensures forall k :: largest < k <= MAX_ORDER ==> lists[k] == []
    {
      hide Inv, LivePages, FreePages;
      freePages, largest := SumLists();
      blocks := allocatedBlocks;
      Conservation(Abs());
    }

    /** Any other code may write anything to memory that is neither free nor a live header:
        inside a live payload, or outside the heap. */
    method ForeignWrite(page: nat, junk: Header)
      requires Valid() && page < PAGES
      requires page !in FreePages(Abs()) && page !in live
      modifies headers
      ensures Valid() && Abs() == old(Abs())
      ensures headers[..] == old(headers[..])[page := junk]
    {
      InvShape(Abs());
      NotListed(lists, FreePages(Abs()), page);
      LinkedFrame(headers[..], headers[..][page := junk], freeLists[..], lists);
      ghost var h := headers[..];
      headers[page] := junk;
      assert headers[..] == h[page := junk] && freeLists[..] == old(freeLists[..]);
    }
  }

  /** The head of a list, once popped, lies apart from what is still listed and from every live block. */
  lemma PoppedBlock(st: State, j: nat)
    requires Inv(st) && j < |st.lists| && st.lists[j] != []
    ensures var b := Block(st.lists[j][0], j);
            && b.Shaped() && b.page in b.Pages() && b.Pages() <= FreePages(st)
            && b.Pages() !! LivePages(st) && b.Pages() <= st.owned
            && FreeTiles(Unlink(st.lists, j, b.page), FreePages(st) - b.Pages())
  {
    var b := Block(st.lists[j][0], j);
    assert b in BlocksOf(st.lists) && b.Shaped();
    UnlinkTiles(st.lists, FreePages(st), b);
  }

  /** A live block about to be freed lies apart from the free pages. */
  lemma FreedReady(st: State, page: nat)
    requires Inv(st) && page in st.live
    ensures var b := Block(page, st.live[page]);
            b.Shaped() && b.Pages() !! FreePages(st) && b.Pages() <= st.owned
    ensures FreeTiles(st.lists, FreePages(st)) && FreePages(st) <= st.owned && st.limit <= PAGES
  {
    hide FreeTiles;
    var b := Block(page, st.live[page]);
    assert b in LiveBlocks(st.live);
    assert b.Shaped() && b.Pages() <= LivePages(st);
  }

  /** What freeing may write lies outside every block that stays live. */
  lemma FreedFrame(st: State, page: nat)
    requires Inv(st) && page in st.live && st.live[page] <= MAX_ORDER
    ensures |st.lists| == MAX_ORDER + 1
    ensures LivePages(BuddyState.Kfree(st, page)) !! FreePages(st) + Block(page, st.live[page]).Pages()
  {
    InvShape(st);
    hide FreeTiles, Coalesce;
    KfreeInv(st, page);
  }

  /** The merged block is not listed, and its pages are free or just freed. */
  lemma FreedPush(st: State, page: nat)
    requires Inv(st) && page in st.live
    ensures st.live[page] <= MAX_ORDER
    ensures var m := Coalesce(st.lists, page, st.live[page], st.base, st.limit);
            && m.order <= MAX_ORDER && 0 < m.page < PAGES && !Listed(m.lists, m.page)
            && m.page in FreePages(st) + Block(page, st.live[page]).Pages()
  {
    hide Tiles, Coalesce;
    var b := Block(page, st.live[page]);
    FreedReady(st, page);
    CoalesceTiles(st.lists, FreePages(st), b, st.base, st.limit);
    var m := Coalesce(st.lists, page, b.order, st.base, st.limit);
    var grown := Block(m.page, m.order);
    assert m.page in grown.Pages();
    NotListed(m.lists, FreePages(st) + b.Pages() - grown.Pages(), m.page);
  }

  /** A listed block carries its mark, so the hint never turns a real sibling away. */
  lemma HintMatches(h: seq<Header>, heads: seq<nat>, ls: Lists, order: nat, p: nat)
    requires Linked(h, heads, ls) && order <= MAX_ORDER
    ensures p in ls[order] ==> p < PAGES && h[p].magic == MAGIC_FREE && h[p].order == order
  {
    if p in ls[order] {
      ListedMarks(h, heads, ls, order, p);
    }
  }

  lemma ListedOnly(ls: Lists, f: set<nat>, k: nat)
    requires FreeTiles(ls, f) && k < |ls|
    ensures forall p :: p in ls[k] ==> p in f
  {
    forall p | p in ls[k]
      ensures p in f
    {
      ListedInside(ls, f, k, p);
    }
  }

  lemma InvShape(st: State)
    requires Inv(st)
    ensures |st.lists| == MAX_ORDER + 1 && |st.bits| == PAGES && LivePages(st) <= st.owned
  {
  }

  /** A block just obtained is listed nowhere, lies apart from every live block, on owned pages. */
  lemma NewBlock(st: State, order: nat)
    requires Inv(st) && order <= MAX_ORDER
    ensures var got := BuddyState.GetBlock(st, order);
            got.Some? ==>
              var block := got.value.page;
              && 0 < block < PAGES && !Listed(got.value.st.lists, block)
              && got.value.st.live == st.live && block !in st.live && block !in LivePages(st) && block in got.value.st.owned
              && Inv(Obtain(st, order).st)
  {
    hide Tiles, BuddyState.GetBlock;
    GetBlockCarves(st, order);
    ObtainInv(st, order);
    if BuddyState.GetBlock(st, order).Some? {
      var g := BuddyState.GetBlock(st, order).value;
      var b := Block(g.page, order);
      assert g.page in b.Pages();
      NotLiveTwice(g.st, b);
      NotListed(g.st.lists, FreePages(g.st) - b.Pages(), g.page);
    }
  }
}
