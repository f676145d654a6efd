/** The buddy heap on values: free lists as sequences, and what each step of the allocator does to them. */
module BuddySpec {
  import opened Bits
  import opened PmmSpec
  import opened Tiling

  /** One sequence of block pages per order, in list order. */
  type Lists = seq<seq<nat>>

  ghost predicate NoDup(s: seq<nat>) {
    forall i, j :: 0 <= i < j < |s| ==> s[i] != s[j]
  }

  ghost function BlocksOf(ls: Lists): (s: set<Block>)
    ensures forall b :: b in s <==> b.order < |ls| && b.page in ls[b.order]
  {
    set k, p | 0 <= k < |ls| && p in ls[k] :: Block(p, k)
  }

  /** The lists hold each of their blocks once, and those blocks tile f. */
  ghost predicate FreeTiles(ls: Lists, f: set<nat>) {
    && |ls| == MAX_ORDER + 1
    && (forall k {:trigger NoDup(ls[k])} :: 0 <= k <= MAX_ORDER ==> NoDup(ls[k]))
    && Tiles(BlocksOf(ls), f)
  }

  // ----- List operations -------------------------------------------------

  ghost function Push(ls: Lists, order: nat, page: nat): Lists
    requires order < |ls|
  {
    ls[order := [page] + ls[order]]
  }

  ghost function RemoveFirst(s: seq<nat>, x: nat): seq<nat> {
    if s == [] then [] else if s[0] == x then s[1..] else [s[0]] + RemoveFirst(s[1..], x)
  }

  ghost function Unlink(ls: Lists, order: nat, page: nat): Lists
    requires order < |ls|
  {
    ls[order := RemoveFirst(ls[order], page)]
  }

  lemma {:induction false} RemoveFirstMeaning(s: seq<nat>, x: nat)
    requires NoDup(s)
    ensures NoDup(RemoveFirst(s, x))
    ensures forall y :: y in RemoveFirst(s, x) <==> y in s && y != x
  {
    if s != [] {
      RemoveFirstMeaning(s[1..], x);
      var r := RemoveFirst(s[1..], x);
      assert s[0] !in r;
      assert forall i :: 0 <= i < |r| ==> r[i] in r;
      assert forall y :: y in s <==> y == s[0] || y in s[1..];
    }
  }

  lemma {:induction false} RemoveFirstAt(s: seq<nat>, i: nat)
    requires i < |s| && s[i] !in s[..i]
    ensures RemoveFirst(s, s[i]) == s[..i] + s[i + 1..]
  {
    if i > 0 {
      assert s[0] in s[..i];
      assert s[1..][..i - 1] == s[1..i];
      assert forall y :: y in s[1..i] ==> y in s[..i];
      RemoveFirstAt(s[1..], i - 1);
      assert s[1..][i..] == s[i + 1..];
      assert [s[0]] + s[1..i] == s[..i];
    }
  }

  lemma PushTiles(ls: Lists, f: set<nat>, b: Block)
    requires FreeTiles(ls, f) && b.Shaped() && b.Pages() !! f
    ensures FreeTiles(Push(ls, b.order, b.page), f + b.Pages())
    ensures BlocksOf(Push(ls, b.order, b.page)) == BlocksOf(ls) + {b}
    ensures b !in BlocksOf(ls)
  {
    TilesAdd(BlocksOf(ls), f, b);
    var after := Push(ls, b.order, b.page);
    assert BlocksOf(after) == BlocksOf(ls) + {b} by {
      assert forall y :: y in after[b.order] <==> y == b.page || y in ls[b.order];
    }
    assert NoDup(ls[b.order]);
    assert NoDup(after[b.order]);
  }

  lemma UnlinkTiles(ls: Lists, f: set<nat>, b: Block)
    requires FreeTiles(ls, f) && b in BlocksOf(ls)
    ensures b.Pages() <= f
    ensures FreeTiles(Unlink(ls, b.order, b.page), f - b.Pages())
    ensures BlocksOf(Unlink(ls, b.order, b.page)) == BlocksOf(ls) - {b}
  {
    TilesRemove(BlocksOf(ls), f, b);
    RemoveFirstMeaning(ls[b.order], b.page);
    assert BlocksOf(Unlink(ls, b.order, b.page)) == BlocksOf(ls) - {b};
  }

  // ----- Splitting -------------------------------------------------------

  /** Halve a block of order j down to the given order, pushing each upper half. */
  ghost function Split(ls: Lists, page: nat, j: nat, order: nat): (r: Lists)
    requires order <= j <= |ls|
    ensures |r| == |ls|
    decreases j - order
  {
    if j == order then ls
    else Split(Push(ls, j - 1, page + Pow2(j - 1)), page, j - 1, order)
  }

  lemma {:induction false} SplitTiles(ls: Lists, f: set<nat>, b: Block, order: nat)
    requires FreeTiles(ls, f) && b.Shaped() && b.Pages() !! f && order <= b.order
    ensures Block(b.page, order).Shaped() && Block(b.page, order).Pages() <= b.Pages()
    ensures FreeTiles(Split(ls, b.page, b.order, order), f + (b.Pages() - Block(b.page, order).Pages()))
    decreases b.order - order
  {
    hide Aligned, Tiles, Xor, Pow2, NoDup;
    if b.order == order {
      assert f + (b.Pages() - b.Pages()) == f;
    } else {
      Halves(b);
      PushTiles(ls, f, Upper(b));
      SplitTiles(Push(ls, b.order - 1, Upper(b).page), f + Upper(b).Pages(), Lower(b), order);
      SplitPages(f, b.Pages(), Lower(b).Pages(), Upper(b).Pages(), Block(b.page, order).Pages());
    }
  }

  lemma SplitPages(f: set<nat>, whole: set<nat>, lower: set<nat>, upper: set<nat>, last: set<nat>)
    requires lower + upper == whole && lower !! upper && last <= lower && whole !! f
    ensures f + upper + (lower - last) == f + (whole - last)
  {
  }

  // ----- Laying out slack ------------------------------------------------

  /** Pieces of rem pages below p, highest bit first, going down; a pull always has rem < p. */
  ghost function PlaceDown(ls: Lists, rem: nat, p: nat, n: nat): (r: Lists)
    requires n <= |ls|
    ensures |r| == |ls|
    decreases n, rem
  {
    if n == 0 then ls
    else if Bit(rem, n - 1) && Pow2(n - 1) <= p then
      PlaceDown(Push(ls, n - 1, p - Pow2(n - 1)), rem, p - Pow2(n - 1), n - 1)
    else PlaceDown(ls, rem, p, n - 1)
  }

  /** Pieces of rem pages from p upwards, highest bit first. */
  ghost function PlaceUp(ls: Lists, rem: nat, p: nat, n: nat): (r: Lists)
    requires n <= |ls|
    ensures |r| == |ls|
    decreases n, rem
  {
    if n == 0 then ls
    else if Bit(rem, n - 1) then
      PlaceUp(Push(ls, n - 1, p), rem, p + Pow2(n - 1), n - 1)
    else PlaceUp(ls, rem, p, n - 1)
  }

  ghost function Range(lo: nat, hi: nat): (s: set<nat>)
    ensures forall p :: p in s <==> lo <= p < hi
  {
    set p: nat | lo <= p < hi && InRange(lo, hi, p)
  }

  ghost predicate InRange(lo: nat, hi: nat, p: nat) {
    lo <= p < hi
  }

  lemma RangeOfBlock(b: Block)
    ensures b.Pages() == Range(b.page, b.End())
  {
  }

  /** One more piece in front of or behind a laid-out range. */
  lemma RangeJoin(f: set<nat>, lo: nat, mid: nat, hi: nat)
    requires lo <= mid <= hi && Range(lo, hi) !! f
    ensures Range(lo, mid) !! f && Range(mid, hi) !! f
    ensures Range(lo, mid) !! f + Range(mid, hi) && Range(mid, hi) !! f + Range(lo, mid)
    ensures f + Range(mid, hi) + Range(lo, mid) == f + Range(lo, hi)
    ensures f + Range(lo, mid) + Range(mid, hi) == f + Range(lo, hi)
  {
    assert forall p :: p in Range(lo, mid) ==> p in Range(lo, hi);
    assert forall p :: p in Range(mid, hi) ==> p in Range(lo, hi);
  }

  /** The arithmetic of one piece of order m taken from below p, or laid down at p. */
  lemma PieceBelow(rem: nat, p: nat, m: nat)
    requires m < MAX_ORDER && Aligned(p, m + 1) && p <= PAGES && Low(rem, m + 1) < p
    ensures Aligned(p, m)
    ensures Bit(rem, m) ==>
              && Pow2(m) + Low(rem, m) == Low(rem, m + 1)
              && Block(p - Pow2(m), m).Shaped() && Block(p - Pow2(m), m).End() == p
    ensures !Bit(rem, m) ==> Low(rem, m) == Low(rem, m + 1)
  {
    LowSplit(rem, m);
    AlignedDown(p, m + 1, m);
    AlignedShift(p, m, m);
  }

  lemma PieceAbove(rem: nat, p: nat, m: nat)
    requires m < MAX_ORDER && Aligned(p, m + 1) && 0 < p && p + Low(rem, m + 1) <= PAGES
    ensures Aligned(p, m)
    ensures Bit(rem, m) ==>
              && Pow2(m) + Low(rem, m) == Low(rem, m + 1)
              && Block(p, m).Shaped() && Aligned(Block(p, m).End(), m)
    ensures !Bit(rem, m) ==> Low(rem, m) == Low(rem, m + 1)
  {
    LowSplit(rem, m);
    AlignedDown(p, m + 1, m);
    AlignedShift(p, m, m);
  }

  /** One turn of the downward loop, for a count below 2^order and a start aligned to it. */
  lemma NextBelow(rem: nat, p: nat, m: nat, order: nat, lo: nat)
    requires m < MAX_ORDER && order <= MAX_ORDER && rem < Pow2(order)
    requires 0 < lo && p <= PAGES && lo + Low(rem, m + 1) == p && Aligned(p, Min(m + 1, order))
    ensures And(rem, Pow2(m)) != 0 <==> Bit(rem, m)
    ensures Aligned(p, Min(m, order))
    ensures !Bit(rem, m) ==> Low(rem, m) == Low(rem, m + 1)
    ensures Bit(rem, m) ==>
              && lo + Pow2(m) + Low(rem, m) == p && Block(p - Pow2(m), m).Shaped()
              && Aligned(p - Pow2(m), Min(m, order))
  {
    AndBit(rem, m);
    if m < order {
      PieceBelow(rem, p, m);
    } else {
      NoBitsFrom(rem, order, m);
    }
  }

  lemma NextAbove(rem: nat, p: nat, m: nat, order: nat, hi: nat)
    requires m < MAX_ORDER && order <= MAX_ORDER && rem < Pow2(order)
    requires 0 < p && hi <= PAGES && p + Low(rem, m + 1) == hi && Aligned(p, Min(m + 1, order))
    ensures And(rem, Pow2(m)) != 0 <==> Bit(rem, m)
    ensures Aligned(p, Min(m, order))
    ensures !Bit(rem, m) ==> Low(rem, m) == Low(rem, m + 1)
    ensures Bit(rem, m) ==>
              && p + Pow2(m) + Low(rem, m) == hi && Block(p, m).Shaped()
              && Aligned(p + Pow2(m), Min(m, order))
  {
    AndBit(rem, m);
    if m < order {
      PieceAbove(rem, p, m);
    } else {
      NoBitsFrom(rem, order, m);
    }
  }

  lemma NoBitsFrom(rem: nat, order: nat, m: nat)
    requires rem < Pow2(order) && order <= m
    ensures !Bit(rem, m) && Low(rem, m) == Low(rem, m + 1) == rem
  {
    Pow2Monotone(order, m);
    LowBound(rem, m);
    LowBound(rem, m + 1);
    NoHighBit(rem, order, m);
  }

  /** Bits above the highest one of rem lay nothing out. */
  lemma {:induction false} PlaceSkips(ls: Lists, rem: nat, p: nat, k: nat, n: nat)
    requires k <= n <= |ls| && rem < Pow2(k)
    ensures Low(rem, k) == rem && Low(rem, n) == rem
    ensures PlaceDown(ls, rem, p, n) == PlaceDown(ls, rem, p, k)
    ensures PlaceUp(ls, rem, p, n) == PlaceUp(ls, rem, p, k)
    decreases n
  {
    Pow2Monotone(k, n);
    LowBound(rem, k);
    LowBound(rem, n);
    if k < n {
      NoBitsFrom(rem, k, n - 1);
      PlaceSkips(ls, rem, p, k, n - 1);
    }
  }

  lemma {:induction false} PlaceDownTiles(ls: Lists, f: set<nat>, rem: nat, p: nat, n: nat, lo: nat)
    requires FreeTiles(ls, f) && n <= MAX_ORDER && Aligned(p, n) && p <= PAGES
    requires 0 < lo && lo + Low(rem, n) == p && Range(lo, p) !! f
    ensures FreeTiles(PlaceDown(ls, rem, p, n), f + Range(lo, p))
    decreases n
  {
    hide Aligned, Low, Bit, Tiles;
    LowBound(rem, 0);
    if n == 0 {
      assert f + Range(p, p) == f;
    } else {
      var m := n - 1;
      PieceBelow(rem, p, m);
      if Bit(rem, m) {
        var b := Block(p - Pow2(m), m);
        RangeOfBlock(b);
        RangeJoin(f, lo, b.page, p);
        PushTiles(ls, f, b);
        PlaceDownTiles(Push(ls, m, b.page), f + b.Pages(), rem, b.page, m, lo);
      } else {
        PlaceDownTiles(ls, f, rem, p, m, lo);
      }
    }
  }

  lemma {:induction false} PlaceUpTiles(ls: Lists, f: set<nat>, rem: nat, p: nat, n: nat, hi: nat)
    requires FreeTiles(ls, f) && n <= MAX_ORDER && Aligned(p, n) && 0 < p
    requires hi <= PAGES && p + Low(rem, n) == hi && Range(p, hi) !! f
    ensures FreeTiles(PlaceUp(ls, rem, p, n), f + Range(p, hi))
    decreases n
  {
    hide Aligned, Low, Bit, Tiles;
    LowBound(rem, 0);
    if n == 0 {
      assert f + Range(p, p) == f;
    } else {
      var m := n - 1;
      PieceAbove(rem, p, m);
      if Bit(rem, m) {
        var b := Block(p, m);
        RangeOfBlock(b);
        RangeJoin(f, p, b.End(), hi);
        PushTiles(ls, f, b);
        PlaceUpTiles(Push(ls, m, p), f + b.Pages(), rem, b.End(), m, hi);
      } else {
        PlaceUpTiles(ls, f, rem, p, m, hi);
      }
    }
  }

  // ----- Coalescing ------------------------------------------------------

  /** Where a merge loop ends: remaining lists, page and order of the merged block. */
  datatype Merged = Merged(lists: Lists, page: nat, order: nat)

  /** The sibling of a block is a free block of the same order inside the extents. */
  ghost predicate Mergeable(ls: Lists, page: nat, order: nat, base: nat, limit: nat) {
    && order < MAX_ORDER && order < |ls|
    && base <= Buddy(page, order) < limit
    && Buddy(page, order) in ls[order]
  }

  ghost function Coalesce(ls: Lists, page: nat, order: nat, base: nat, limit: nat): (m: Merged)
    ensures |m.lists| == |ls| && order <= m.order && (order <= MAX_ORDER ==> m.order <= MAX_ORDER)
    decreases MAX_ORDER - order
  {
    if Mergeable(ls, page, order, base, limit) then
      var buddy := Buddy(page, order);
      Coalesce(Unlink(ls, order, buddy), Min(page, buddy), order + 1, base, limit)
    else Merged(ls, page, order)
  }

  /** A block and its free sibling make one shaped block of the next order. */
  lemma MergedUp(ls: Lists, f: set<nat>, b: Block, buddy: Block)
    requires FreeTiles(ls, f) && b.Shaped() && b.Pages() !! f && b.order < MAX_ORDER
    requires buddy == Block(Buddy(b.page, b.order), b.order) && buddy in BlocksOf(ls)
    ensures var up := Block(Min(b.page, buddy.page), b.order + 1);
            && up.Shaped() && up.Pages() == b.Pages() + buddy.Pages()
            && buddy.Pages() <= f && up.Pages() !! f - buddy.Pages()
  {
    BuddyIsSibling(b.page, b.order);
    assert buddy.Shaped() && buddy.Pages() <= f;
    Halves(Block(Min(b.page, buddy.page), b.order + 1));
  }

  /** Merging keeps the pages: what leaves the lists is what the block grows by. */
  lemma {:induction false} CoalesceTiles(ls: Lists, f: set<nat>, b: Block, base: nat, limit: nat)
    requires FreeTiles(ls, f) && b.Shaped() && b.Pages() !! f
    ensures var m := Coalesce(ls, b.page, b.order, base, limit);
            var grown := Block(m.page, m.order);
            && grown.Shaped() && b.Pages() <= grown.Pages() <= f + b.Pages()
            && FreeTiles(m.lists, f + b.Pages() - grown.Pages())
            && !Mergeable(m.lists, m.page, m.order, base, limit)
    decreases MAX_ORDER - b.order
  {
    hide Aligned, Tiles, Xor;
    if Mergeable(ls, b.page, b.order, base, limit) {
      var buddy := Block(Buddy(b.page, b.order), b.order);
      var up := Block(Min(b.page, buddy.page), b.order + 1);
      UnlinkTiles(ls, f, buddy);
      MergedUp(ls, f, b, buddy);
      var rest := f - buddy.Pages();
      CoalesceTiles(Unlink(ls, b.order, buddy.page), rest, up, base, limit);
      assert rest + up.Pages() == f + b.Pages();
    } else {
      assert f + b.Pages() - b.Pages() == f;
    }
  }
}
