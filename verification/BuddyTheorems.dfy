/** What the heap promises: exact sizes, exact failure, merging that undoes splitting, and conservation. */
module BuddyTheorems {
  import opened Machine
  import opened Bits
  import opened PmmSpec
  import opened Tiling
  import opened BuddySpec
  import opened BuddyState

  // ----- kfree as an abstract free on sets of blocks ----------------------

  /** The other half of the block of the next order: arithmetic, no exclusive or. */
  ghost function Sibling(b: Block): Block {
    if b.page / Pow2(b.order) % 2 == 0 then Block(b.page + Pow2(b.order), b.order)
    else Block(if b.page >= Pow2(b.order) then b.page - Pow2(b.order) else 0, b.order)
  }

  /** Freeing b into a set of free blocks: merge while the sibling is a free block inside the extents. */
  ghost function AbstractFree(free: set<Block>, b: Block, base: nat, limit: nat): set<Block>
    decreases MAX_ORDER - b.order
  {
    var s := Sibling(b);
    if b.order < MAX_ORDER && s in free && base <= s.page < limit then
      AbstractFree(free - {s}, Block(Min(b.page, s.page), b.order + 1), base, limit)
    else free + {b}
  }

  lemma SiblingIsBuddy(b: Block)
    ensures Sibling(b) == Block(Buddy(b.page, b.order), b.order)
  {
    XorBit(b.page, b.order);
    BitIsDivMod(b.page, b.order);
  }

  /** The list-walking free refines the abstract one: list order and stale headers play no part. */
  lemma {:induction false} CoalesceRefines(ls: Lists, f: set<nat>, b: Block, base: nat, limit: nat)
    requires FreeTiles(ls, f) && b.Shaped() && b.Pages() !! f
    ensures var m := Coalesce(ls, b.page, b.order, base, limit);
            BlocksOf(Push(m.lists, m.order, m.page)) == AbstractFree(BlocksOf(ls), b, base, limit)
    decreases MAX_ORDER - b.order
  {
    hide Tiles, FreeTiles, Xor, Pow2;
    SiblingIsBuddy(b);
    var s := Sibling(b);
    assert |ls| == MAX_ORDER + 1 by { ListsCount(ls, f); }
    if Mergeable(ls, b.page, b.order, base, limit) {
      BuddyIsSibling(b.page, b.order);
      var up := Block(Min(b.page, s.page), b.order + 1);
      UnlinkTiles(ls, f, s);
      MergedUp(ls, f, b, s);
      CoalesceRefines(Unlink(ls, b.order, s.page), f - s.Pages(), up, base, limit);
    } else {
      PushTiles(ls, f, b);
    }
  }

  lemma KfreeRefines(st: State, page: nat)
    requires Inv(st) && page in st.live
    ensures st.live[page] <= MAX_ORDER
    ensures BlocksOf(Kfree(st, page).lists)
            == AbstractFree(BlocksOf(st.lists), Block(page, st.live[page]), st.base, st.limit)
  {
    KfreeInv(st, page);
    var b := Block(page, st.live[page]);
    assert b in LiveBlocks(st.live);
    CoalesceRefines(st.lists, FreePages(st), b, st.base, st.limit);
  }

  // ----- Splitting undone by merging --------------------------------------

  /** The upper halves left by splitting from j down to i all lie inside the extents. */
  ghost predicate HalvesInside(page: nat, order: nat, j: nat, base: nat, limit: nat) {
    forall i :: order <= i < j ==> base <= page + Pow2(i) < limit
  }

  lemma {:induction false} SplitOneMore(ls: Lists, page: nat, j: nat, order: nat)
    requires order < j <= |ls|
    ensures Split(ls, page, j, order) == Push(Split(ls, page, j, order + 1), order, page + Pow2(order))
    decreases j - order
  {
    if order + 1 < j {
      SplitOneMore(Push(ls, j - 1, page + Pow2(j - 1)), page, j - 1, order);
    }
  }

  lemma {:induction false} SplitLeavesHigh(ls: Lists, page: nat, j: nat, order: nat)
    requires order <= j <= |ls|
    ensures forall k :: j <= k < |ls| ==> Split(ls, page, j, order)[k] == ls[k]
    decreases j - order
  {
    if order < j {
      SplitLeavesHigh(Push(ls, j - 1, page + Pow2(j - 1)), page, j - 1, order);
    }
  }

  lemma LowerHalfBuddy(page: nat, j: nat, i: nat)
    requires i < j && Aligned(page, j)
    ensures Buddy(page, i) == page + Pow2(i)
  {
    AlignedDown(page, j, i + 1);
    AlignedStep(page, i);
    XorBit(page, i);
  }

  lemma UnlinkPush(ls: Lists, k: nat, page: nat)
    requires k < |ls|
    ensures Unlink(Push(ls, k, page), k, page) == ls
  {
  }

  /** The upper half on top of its list is taken straight back. */
  lemma MergeOneLevel(ls: Lists, page: nat, order: nat, base: nat, limit: nat)
    requires order < MAX_ORDER < |ls| && Buddy(page, order) == page + Pow2(order)
    requires base <= page + Pow2(order) < limit
    ensures Coalesce(Push(ls, order, page + Pow2(order)), page, order, base, limit)
            == Coalesce(ls, page, order + 1, base, limit)
  {
    UnlinkPush(ls, order, page + Pow2(order));
    assert Mergeable(Push(ls, order, page + Pow2(order)), page, order, base, limit);
  }

  /** Merging what was split climbs back level by level while the halves lie inside the extents. */
  lemma {:induction false} MergeClimbs(ls: Lists, page: nat, j: nat, order: nat, i: nat, base: nat, limit: nat)
    requires order <= i <= j <= MAX_ORDER < |ls| && Aligned(page, j)
    requires HalvesInside(page, order, i, base, limit)
    ensures Coalesce(Split(ls, page, j, order), page, order, base, limit)
            == Coalesce(Split(ls, page, j, i), page, i, base, limit)
    decreases i - order
  {
    hide Aligned, Coalesce, Mergeable, Split;
    if order < i {
      SplitOneMore(ls, page, j, order);
      LowerHalfBuddy(page, j, order);
      MergeOneLevel(Split(ls, page, j, order + 1), page, order, base, limit);
      MergeClimbs(ls, page, j, order + 1, i, base, limit);
    }
  }

  lemma {:induction false} RemoveFirstKeeps(s: seq<nat>, x: nat, y: nat)
    requires y in RemoveFirst(s, x)
    ensures y in s
  {
    if s[0] != x && y != s[0] {
      RemoveFirstKeeps(s[1..], x, y);
    }
  }

  /** Merging puts nothing on a list. */
  lemma {:induction false} CoalesceOnlyRemoves(ls: Lists, page: nat, order: nat, base: nat, limit: nat, k: nat, x: nat)
    requires order <= MAX_ORDER < |ls| && k < |ls|
    requires x in Coalesce(ls, page, order, base, limit).lists[k]
    ensures x in ls[k]
    decreases MAX_ORDER - order
  {
    if Mergeable(ls, page, order, base, limit) {
      var buddy := Buddy(page, order);
      CoalesceOnlyRemoves(Unlink(ls, order, buddy), Min(page, buddy), order + 1, base, limit, k, x);
      if k == order {
        RemoveFirstKeeps(ls[order], buddy, x);
      }
    }
  }

  /** The condition under which kfree straight after kmalloc puts everything back. */
  ghost predicate Undoable(st: State, order: nat)
    requires order <= MAX_ORDER && |st.lists| == MAX_ORDER + 1 && FirstFit(st.lists, order) <= MAX_ORDER
  {
    var j := FirstFit(st.lists, order);
    var page := st.lists[j][0];
    && HalvesInside(page, order, j, st.base, st.limit)
    && !Mergeable(st.lists, page, j, st.base, st.limit)
  }

  /** The state after a block served from the lists is freed at once. */
  lemma FreedAtOnce(st: State, order: nat)
    requires Inv(st) && order <= MAX_ORDER && FirstFit(st.lists, order) <= MAX_ORDER
    ensures var j := FirstFit(st.lists, order);
            var page := st.lists[j][0];
            var popped := Unlink(st.lists, j, page);
            var r := Obtain(st, order);
            && Aligned(page, j) && PageOf(r.pointer) == page && r.pointer != 0
            && page in r.st.live && r.st.live[page] == order
            && var m := Coalesce(Split(popped, page, j, order), page, order, st.base, st.limit);
            Kfree(r.st, page) == st.(lists := Push(m.lists, m.order, m.page))
  {
    var j := FirstFit(st.lists, order);
    var page := st.lists[j][0];
    assert Block(page, j) in BlocksOf(st.lists);
    assert Block(page, j).Shaped();
    PopIsUnlink(st.lists, j);
    ObtainInv(st, order);
    var r := Obtain(st, order);
    assert r.st.live - {page} == st.live;
  }

  lemma BuddyDiffers(page: nat, order: nat)
    ensures Buddy(page, order) != page
  {
    XorBit(page, order);
  }

  lemma SplitNothing(ls: Lists, page: nat, j: nat)
    requires j <= |ls|
    ensures Split(ls, page, j, j) == ls
  {
  }

  /** All halves inside: what matters is whether the original block merges further. */
  lemma UndoneInside(ls: Lists, page: nat, j: nat, order: nat, base: nat, limit: nat)
    requires order <= j <= MAX_ORDER < |ls| && Aligned(page, j) && ls[j] != [] && ls[j][0] == page && NoDup(ls[j])
    requires HalvesInside(page, order, j, base, limit)
    ensures var m := Coalesce(Split(Unlink(ls, j, page), page, j, order), page, order, base, limit);
            if Mergeable(ls, page, j, base, limit) then page !in Push(m.lists, m.order, m.page)[j]
            else Push(m.lists, m.order, m.page) == ls
  {
    hide Aligned, Split, HalvesInside, Buddy;
    var popped := Unlink(ls, j, page);
    MergeClimbs(popped, page, j, order, j, base, limit);
    SplitNothing(popped, page, j);
    BuddyDiffers(page, j);
    PopIsUnlink(ls, j);
    assert Mergeable(ls, page, j, base, limit) <==> Mergeable(popped, page, j, base, limit);
    if Mergeable(popped, page, j, base, limit) {
      MergedPastTop(popped, page, j, base, limit);
    } else {
      assert [page] + ls[j][1..] == ls[j];
      assert Push(popped, j, page) == ls;
    }
  }

  /** A half outside stops the merge below the original order. */
  lemma NotUndoneOutside(ls: Lists, page: nat, j: nat, order: nat, base: nat, limit: nat)
    requires order <= j <= MAX_ORDER < |ls| && Aligned(page, j) && ls[j] != [] && ls[j][0] == page && NoDup(ls[j])
    requires !HalvesInside(page, order, j, base, limit)
    ensures var m := Coalesce(Split(Unlink(ls, j, page), page, j, order), page, order, base, limit);
            page !in Push(m.lists, m.order, m.page)[j]
  {
    var popped := Unlink(ls, j, page);
    PopIsUnlink(ls, j);
    var i := FirstOutside(page, order, j, base, limit);
    MergeClimbs(popped, page, j, order, i, base, limit);
    LowerHalfBuddy(page, j, i);
    SplitLeavesHigh(popped, page, j, i);
    var after := Push(Split(popped, page, j, i), i, page);
    assert after[j] == popped[j];
  }

  /** kfree of a block just served from the free lists restores the whole state, list order
      included, exactly when the halves split off lie inside the extents and the block it was
      served from has no free sibling inside the extents; otherwise not even the set of free
      blocks is restored. */
  lemma FreeUndoesMalloc(st: State, order: nat)
    requires Inv(st) && order <= MAX_ORDER && FirstFit(st.lists, order) <= MAX_ORDER
    ensures var r := Obtain(st, order);
            && r.pointer != 0 && PageOf(r.pointer) in r.st.live && r.st.live[PageOf(r.pointer)] <= MAX_ORDER
            && |r.st.lists| == MAX_ORDER + 1
            && (Kfree(r.st, PageOf(r.pointer)) == st <==> Undoable(st, order))
            && (BlocksOf(Kfree(r.st, PageOf(r.pointer)).lists) == BlocksOf(st.lists) <==> Undoable(st, order))
  {
    var j := FirstFit(st.lists, order);
    var b := Block(st.lists[j][0], j);
    FreedAtOnce(st, order);
    assert b in BlocksOf(st.lists) && NoDup(st.lists[j]);
    if HalvesInside(b.page, order, j, st.base, st.limit) {
      UndoneInside(st.lists, b.page, j, order, st.base, st.limit);
    } else {
      NotUndoneOutside(st.lists, b.page, j, order, st.base, st.limit);
    }
    var after := Kfree(Obtain(st, order).st, b.page);
    assert b.page !in after.lists[j] ==> b !in BlocksOf(after.lists);
  }

  lemma FirstOutside(page: nat, order: nat, j: nat, base: nat, limit: nat) returns (i: nat)
    requires order <= j && !HalvesInside(page, order, j, base, limit)
    ensures order <= i < j && HalvesInside(page, order, i, base, limit) && !(base <= page + Pow2(i) < limit)
  {
    i := order;
    while base <= page + Pow2(i) < limit
      invariant order <= i < j && HalvesInside(page, order, i, base, limit)
      decreases j - i
    {
      if i + 1 == j {
        assert HalvesInside(page, order, j, base, limit);
      }
      i := i + 1;
    }
  }

  /** A merge at order j puts nothing back on list j. */
  lemma MergedPastTop(ls: Lists, page: nat, j: nat, base: nat, limit: nat)
    requires j <= MAX_ORDER < |ls| && Mergeable(ls, page, j, base, limit)
    ensures var m := Coalesce(ls, page, j, base, limit);
            m.order > j && forall x :: x in Push(m.lists, m.order, m.page)[j] ==> x in ls[j]
  {
    var m := Coalesce(ls, page, j, base, limit);
    forall x | x in Push(m.lists, m.order, m.page)[j]
      ensures x in ls[j]
    {
      CoalesceOnlyRemoves(ls, page, j, base, limit, j, x);
    }
  }

  /** Whatever the sibling does, the split pieces are absorbed: one free block of at least the
      original order covers the original block. */
  lemma FreeAbsorbsPieces(st: State, order: nat)
    requires Inv(st) && order <= MAX_ORDER && FirstFit(st.lists, order) <= MAX_ORDER
    requires HalvesInside(st.lists[FirstFit(st.lists, order)][0], order, FirstFit(st.lists, order), st.base, st.limit)
    ensures var j := FirstFit(st.lists, order);
            var b := Block(st.lists[j][0], j);
            var r := Obtain(st, order);
            && b.page in r.st.live && r.st.live[b.page] <= MAX_ORDER && |r.st.lists| == MAX_ORDER + 1
            && exists c :: c in BlocksOf(Kfree(r.st, b.page).lists) && c.order >= j && b.Pages() <= c.Pages()
  {
    var j := FirstFit(st.lists, order);
    var b := Block(st.lists[j][0], j);
    var popped := Unlink(st.lists, j, b.page);
    FreedAtOnce(st, order);
    ObtainInv(st, order);
    MergeClimbs(popped, b.page, j, order, j, st.base, st.limit);
    assert b in BlocksOf(st.lists);
    UnlinkTiles(st.lists, FreePages(st), b);
    CoalesceTiles(popped, FreePages(st) - b.Pages(), b, st.base, st.limit);
    var m := Coalesce(popped, b.page, j, st.base, st.limit);
    assert Block(m.page, m.order) in BlocksOf(Kfree(Obtain(st, order).st, b.page).lists);
  }

  // ----- Exact sizes and exact failure ------------------------------------

  const PAGE_WINDOW: nat := 0x1000_0000_0000

  /** Sizes whose page count is not cut off at 32 bits. */
  predicate CountFits(size: nat) {
    size + HEADER_SIZE + PAGE_SIZE - 1 < PAGE_WINDOW
  }

  /** Reducing modulo 2^44 before or after the division by the page size is the same. */
  lemma WindowDivision(x: nat)
    ensures x / PAGE_SIZE % UINT32 == x % PAGE_WINDOW / PAGE_SIZE
  {
    var q, r := x / PAGE_WINDOW, x % PAGE_WINDOW;
    assert x == PAGE_SIZE * (UINT32 * q + r / PAGE_SIZE) + r % PAGE_SIZE;
    DivModUnique(x, PAGE_SIZE, UINT32 * q + r / PAGE_SIZE, r % PAGE_SIZE);
    DivModUnique(UINT32 * q + r / PAGE_SIZE, UINT32, q, r / PAGE_SIZE);
  }

  lemma PageCountWindow(size: nat)
    requires size < WORD
    ensures PageCount(size) == (size + HEADER_SIZE + PAGE_SIZE - 1) % PAGE_WINDOW / PAGE_SIZE
  {
    var x := size + HEADER_SIZE + PAGE_SIZE - 1;
    WrappedSum(size + HEADER_SIZE);
    WrappedSum((size + HEADER_SIZE) % WORD + PAGE_SIZE - 1);
    var sum := if x < WORD then x else x - WORD;
    assert PageCount(size) == sum / PAGE_SIZE % UINT32;
    WindowDivision(sum);
    assert sum % PAGE_WINDOW == x % PAGE_WINDOW;
  }

  /** Whole pages bound bytes from above and below. */
  lemma PagesAndBytes(bytes: nat, pages: nat, blockPages: nat)
    requires pages == (bytes + PAGE_SIZE - 1) / PAGE_SIZE
    ensures bytes <= PAGE_SIZE * blockPages <==> pages <= blockPages
  {
  }

  /** The order chosen is the least whose block holds the header and the payload. */
  lemma OrderExact(size: nat)
    requires 0 < size && CountFits(size) && PageCount(size) <= 1024
    ensures var k := OrderFor(PageCount(size));
            && k <= MAX_ORDER
            && size + HEADER_SIZE <= PAGE_SIZE * Pow2(k)
            && forall i :: 0 <= i < k ==> PAGE_SIZE * Pow2(i) < size + HEADER_SIZE
  {
    PageCountWindow(size);
    var pages := PageCount(size);
    assert pages == (size + HEADER_SIZE + PAGE_SIZE - 1) / PAGE_SIZE;
    hide PageCount, OrderFor, Pow2;
    OrderBound(pages);
    PagesAndBytes(size + HEADER_SIZE, pages, Pow2(OrderFor(pages)));
    forall i | 0 <= i < OrderFor(pages)
      ensures PAGE_SIZE * Pow2(i) < size + HEADER_SIZE
    {
      PagesAndBytes(size + HEADER_SIZE, pages, Pow2(i));
    }
  }

  /** kmalloc either refuses a size or gives it room: exactly unless the page count was cut off
      and what is left of it is small. */
  lemma RoomExact(size: nat)
    requires 0 < size < WORD
    ensures (PageCount(size) <= 1024 ==> size + HEADER_SIZE <= PAGE_SIZE * Pow2(OrderFor(PageCount(size))))
            <==> CountFits(size) || (size + HEADER_SIZE + PAGE_SIZE - 1) % PAGE_WINDOW >= 1025 * PAGE_SIZE
  {
    PageCountWindow(size);
    if CountFits(size) {
      if PageCount(size) <= 1024 {
        OrderExact(size);
      }
    } else if PageCount(size) <= 1024 {
      OrderBound(PageCount(size));
      Pow2Monotone(OrderFor(PageCount(size)), MAX_ORDER);
      assert Pow2(10) == 1024;
    }
  }

  /** The condition does fail: a request for 2^44 bytes is treated as one for a single byte. */
  lemma HugeRequestCut(st: State)
    requires Inv(st)
    ensures PageCount(PAGE_WINDOW) == 1 && Kmalloc(st, PAGE_WINDOW) == Kmalloc(st, 1)
    ensures PAGE_WINDOW + HEADER_SIZE > PAGE_SIZE * Pow2(OrderFor(PageCount(PAGE_WINDOW)))
  {
    PageCountWindow(PAGE_WINDOW);
    PageCountWindow(1);
    hide PageCount;
    assert PageCount(1) == 1;
  }

  /** kmalloc fails exactly for size 0, for more than 1024 pages, and when neither layer has room;
      and then nothing has changed. */
  lemma KmallocFailsExactly(st: State, size: nat)
    requires Inv(st)
    ensures var r := Kmalloc(st, size);
            var order := OrderFor(PageCount(size));
            && (r.pointer == 0 ==> r.st == st)
            && (r.pointer == 0 <==>
                  || size == 0 || PageCount(size) > 1024
                  || ((forall k :: order <= k <= MAX_ORDER ==> st.lists[k] == [])
                      && forall s :: 0 <= s ==> !Clear(st.bits, s, PullSize(order))))
  {
    if size > 0 && PageCount(size) <= 1024 {
      OrderBound(PageCount(size));
      var order := OrderFor(PageCount(size));
      FirstRunMeaning(st.bits, PullSize(order), 0);
      ObtainInv(st, order);
      var j := FirstFit(st.lists, order);
      assert j <= MAX_ORDER ==> st.lists[j] != [];
    }
  }

  // ----- Conservation -----------------------------------------------------

  /** heap_stats' sum over the first n lists. */
  ghost function FreeCount(ls: Lists, n: nat): nat
    requires n <= |ls|
  {
    if n == 0 then 0 else FreeCount(ls, n - 1) + |ls[n - 1]| * Pow2(n - 1)
  }

  lemma {:induction false} FreeCountPop(ls: Lists, n: nat, j: nat)
    requires n <= |ls| && j < |ls| && ls[j] != []
    ensures FreeCount(ls[j := ls[j][1..]], n) + (if j < n then Pow2(j) else 0) == FreeCount(ls, n)
  {
    if n > 0 {
      FreeCountPop(ls, n - 1, j);
      if j == n - 1 {
        var c := |ls[j]| - 1;
        assert (c + 1) * Pow2(j) == c * Pow2(j) + Pow2(j);
      }
    }
  }

  lemma {:induction false} FreeCountNone(ls: Lists, n: nat)
    requires n <= |ls| && forall k :: 0 <= k < n ==> ls[k] == []
    ensures FreeCount(ls, n) == 0
  {
    if n > 0 {
      FreeCountNone(ls, n - 1);
    }
  }

  lemma {:induction false} BlockSize(b: Block, n: nat)
    requires n <= Pow2(b.order)
    ensures |Range(b.page, b.page + n)| == n
  {
    if n == 0 {
      assert Range(b.page, b.page) == {};
    } else {
      BlockSize(b, n - 1);
      assert Range(b.page, b.page + n) == Range(b.page, b.page + n - 1) + {b.page + n - 1};
    }
  }

  lemma WithoutBlock(f: set<nat>, b: Block)
    requires b.Pages() <= f
    ensures |f - b.Pages()| + Pow2(b.order) == |f|
  {
    RangeOfBlock(b);
    BlockSize(b, Pow2(b.order));
    assert f == f - b.Pages() + b.Pages();
  }

  lemma NothingListed(ls: Lists, f: set<nat>)
    requires FreeTiles(ls, f) && forall k :: 0 <= k < |ls| ==> ls[k] == []
    ensures f == {}
  {
    assert BlocksOf(ls) == {};
    assert forall p :: p in f ==> Covered({}, p);
  }

  /** The pages counted on the lists are the pages the lists tile. */
  lemma {:induction false} FreeCountExact(ls: Lists, f: set<nat>)
    requires FreeTiles(ls, f)
    ensures FreeCount(ls, |ls|) == |f|
    decreases |f|
  {
    var j := FirstFit(ls, 0);
    if j == |ls| {
      FreeCountNone(ls, |ls|);
      NothingListed(ls, f);
    } else {
      var b := Block(ls[j][0], j);
      assert b in BlocksOf(ls);
      PopIsUnlink(ls, j);
      UnlinkTiles(ls, f, b);
      WithoutBlock(f, b);
      FreeCountExact(Unlink(ls, j, b.page), f - b.Pages());
      FreeCountPop(ls, |ls|, j);
    }
  }

  lemma PartsCount(whole: set<nat>, part: set<nat>)
    requires part <= whole
    ensures |whole - part| + |part| == |whole|
  {
    assert whole - part + part == whole;
  }

  /** Free pages and pages of live blocks add up to the pages ever pulled; with nothing live, all are free. */
  lemma Conservation(st: State)
    requires Inv(st)
    ensures FreeCount(st.lists, |st.lists|) + |LivePages(st)| == |st.owned|
    ensures FreeCount(st.lists, |st.lists|) == |FreePages(st)|
    ensures st.live == map[] ==> FreeCount(st.lists, |st.lists|) == |st.owned|
  {
    FreeCountExact(st.lists, FreePages(st));
    PartsCount(st.owned, LivePages(st));
    if st.live == map[] {
      assert LiveBlocks(st.live) == {};
      assert LivePages(st) == {};
    }
  }
}
