/** The physical page allocator: one bit per 4 KiB page over 128 MiB, packed eight to a byte. */
module Pmm {
  import opened Wrappers
  import opened PmmSpec

  /** Bit i of a bitmap byte. */
  predicate BitSet(b: bv8, i: nat)
    requires i < 8
  {
    (b >> i) & 1 == 1
  }

  function WithBit(b: bv8, i: nat, used: bool): bv8
    requires i < 8
  {
    if used then b | ((1 as bv8) << i) else b & !((1 as bv8) << i)
  }

  lemma SetBit(b: bv8, i: nat, j: nat)
    requires i < 8 && j < 8
    ensures BitSet(WithBit(b, i, true), j) <==> i == j || BitSet(b, j)
  {
    assert i == 0 || i == 1 || i == 2 || i == 3 || i == 4 || i == 5 || i == 6 || i == 7;
    assert j == 0 || j == 1 || j == 2 || j == 3 || j == 4 || j == 5 || j == 6 || j == 7;
  }

  lemma ClearBit(b: bv8, i: nat, j: nat)
    requires i < 8 && j < 8
    ensures BitSet(WithBit(b, i, false), j) <==> i != j && BitSet(b, j)
  {
    assert i == 0 || i == 1 || i == 2 || i == 3 || i == 4 || i == 5 || i == 6 || i == 7;
    assert j == 0 || j == 1 || j == 2 || j == 3 || j == 4 || j == 5 || j == 6 || j == 7;
  }

  lemma WithBitMeaning(b: bv8, i: nat, j: nat, used: bool)
    requires i < 8 && j < 8
    ensures BitSet(WithBit(b, i, used), j) <==> if i == j then used else BitSet(b, j)
  {
    if used {
      SetBit(b, i, j);
    } else {
      ClearBit(b, i, j);
    }
  }

  class PageAllocator {
    const bitmap: array<bv8>
    var freeCount: nat
    ghost var bits: seq<bool>

    /** bits is the bitmap read one page at a time. */
    ghost predicate Mapped()
      reads `bits, bitmap
    {
      && bitmap.Length == PAGES / 8
      && |bits| == PAGES
      && forall p :: 0 <= p < PAGES ==> bits[p] == BitSet(bitmap[p / 8], p % 8)
    }

    ghost predicate Valid()
      reads this, bitmap
    {
      && Mapped()
      && freeCount == CountClear(bits)
      && bits[0]  // address 0 is the failure value, never a page handed out
    }

    method Mark(page: nat, used: bool)
      requires Mapped()
      modifies this`bits, bitmap
      ensures Mapped()
      ensures bits == if page < PAGES then old(bits)[page := used] else old(bits)
    {
      if page >= PAGES {
        return;
      }
      var idx, bit := page / 8, page % 8;
      forall j | 0 <= j < 8 {
        WithBitMeaning(bitmap[idx], bit, j, used);
      }
      bitmap[idx] := WithBit(bitmap[idx], bit, used);
      bits := bits[page := used];
      forall p | 0 <= p < PAGES
        ensures bits[p] == BitSet(bitmap[p / 8], p % 8)
      {
        assert p == page <==> p / 8 == idx && p % 8 == bit;
      }
    }

    /** Reading past the bitmap is the caller's error. */
    method Test(page: nat) returns (used: bool)
      requires Mapped() && page < PAGES
      ensures used == bits[page]
    {
      used := (bitmap[page / 8] >> (page % 8)) & 1 == 1;
    }

    /** Marks every page of [from, to); pages past the bitmap are ignored. */
    method MarkRange(from: nat, to: nat, used: bool)
      requires Mapped()
      modifies this`bits, bitmap
      ensures Mapped()
      ensures forall p :: 0 <= p < PAGES ==> bits[p] == if from <= p < to then used else old(bits[p])
    {
      var p := from;
      while p < to
        invariant Mapped() && from <= p && (p <= to || p == from)
        invariant forall q :: 0 <= q < PAGES ==> bits[q] == if from <= q < p then used else old(bits[q])
      {
        Mark(p, used);
        p := p + 1;
      }
    }

    constructor ()
      ensures bitmap.Length == PAGES / 8 && fresh(bitmap)
    {
      bitmap := new bv8[PAGES / 8];
      freeCount := 0;
      bits := [];
    }

    /** Boot: everything used, usable regions freed, reservations taken back, free pages counted. */
    method Init(table: seq<E820Entry>, kernelStart: nat, kernelEnd: nat)
      requires bitmap.Length == PAGES / 8
      modifies this, bitmap
      ensures Valid()
      ensures forall p :: 0 <= p < PAGES ==>
                (!bits[p] <==>
                 && (exists i :: 0 <= i < |table| && i < 64 && table[i].kind == 1
                                 && StartPage(table[i]) <= p < EndPage(table[i]))
                 && !Reserved(p, kernelStart, kernelEnd))
    {
      var i := 0;
      while i < PAGES / 8
        invariant i <= PAGES / 8
        invariant forall k :: 0 <= k < i ==> bitmap[k] == 0xFF
      {
        bitmap[i] := 0xFF;
        i := i + 1;
      }
      bits := seq(PAGES, _ => true);
      AllOnes();
      FreeUsable(table);
      MarkRange(0, 0x100000 / PAGE_SIZE, true);
      MarkRange(kernelStart / PAGE_SIZE, kernelEnd / PAGE_SIZE + 1, true);
      MarkRange(0x9000 / PAGE_SIZE, 0xD000 / PAGE_SIZE, true);
      MarkRange(0x200000 / PAGE_SIZE, 0x240000 / PAGE_SIZE, true);
      MarkRange(0x400000 / PAGE_SIZE, 0x440000 / PAGE_SIZE, true);
      CountPages();
    }

    method FreeUsable(table: seq<E820Entry>)
      requires Mapped() && forall p :: 0 <= p < PAGES ==> bits[p]
      modifies this`bits, bitmap
      ensures Mapped()
      ensures forall p :: 0 <= p < PAGES ==>
                (!bits[p] <==> exists i :: 0 <= i < |table| && i < 64 && table[i].kind == 1
                                           && StartPage(table[i]) <= p < EndPage(table[i]))
    {
      var i := 0;
      while i < |table| && i < 64
        invariant i <= |table| && i <= 64 && Mapped()
        invariant forall p :: 0 <= p < PAGES ==> (!bits[p] <==> Offered(table, i, p))
      {
        var e := table[i];
        ghost var before := bits;
        if e.kind == 1 {
          MarkRange(StartPage(e), EndPage(e), false);
        }
        forall p | 0 <= p < PAGES
          ensures Offered(table, i + 1, p) <==>
                  Offered(table, i, p) || (e.kind == 1 && StartPage(e) <= p < EndPage(e))
        {
          assert table[i] == e;
        }
        i := i + 1;
      }
    }

    method CountPages()
      requires Mapped() && bits[0]
      modifies this`freeCount
      ensures Valid()
    {
      freeCount := 0;
      var i := 0;
      while i < PAGES
        invariant i <= PAGES && freeCount == CountClear(bits[..i])
      {
        assert bits[..i + 1][..i] == bits[..i];
        var used := Test(i);
        if !used {
          freeCount := freeCount + 1;
        }
        i := i + 1;
      }
      assert bits[..PAGES] == bits;
    }

    /** The lowest free page, as an address; 0 when there is none. */
    method AllocPage() returns (address: nat)
      requires Valid()
      modifies this, bitmap
      ensures Valid()
      ensures match FirstRun(old(bits), 1, 0)
              case Some(p) => p > 0 && address == p * PAGE_SIZE && bits == old(bits)[p := true]
              case None => address == 0 && bits == old(bits)
    {
      var i := 0;
      while i < PAGES
        invariant Valid() && bits == old(bits)
        invariant i <= PAGES && forall p :: 0 <= p < i ==> bits[p]
      {
        var used := Test(i);
        if !used {
          UsedStartsNoRun(bits, i);
          FirstRunIs(bits, 1, i);
          CountPositive(bits, i);
          CountUpdate(bits, i, true);
          Mark(i, true);
          freeCount := freeCount - 1;
          return i * PAGE_SIZE;
        }
        i := i + 1;
      }
      UsedStartsNoRun(bits, PAGES);
      FirstRunMeaning(bits, 1, 0);
      return 0;
    }

    /** Gives a page back; address 0 and pages already free are ignored. An address past the bitmap is
        the caller's error. Page 0 is never handed out: freeing it by another address inside it keeps
        the count right, but the page can then be taken for a failure. */
    method FreePage(address: nat)
      requires Valid() && address / PAGE_SIZE < PAGES
      modifies this, bitmap
      ensures Mapped() && freeCount == CountClear(bits)
      ensures bits == if address == 0 then old(bits) else old(bits)[address / PAGE_SIZE := false]
      ensures Valid() <==> !(0 < address < PAGE_SIZE)
    {
      var p := address / PAGE_SIZE;
      var used := Test(p);
      if address != 0 && used {
        CountUpdate(bits, p, false);
        Mark(p, false);
        freeCount := freeCount + 1;
      }
    }

    /** First fit with the skip: after a blocked page the search resumes just past it. */
    method AllocContiguous(pages: nat) returns (address: nat)
      requires Valid()
      modifies this, bitmap
      ensures Valid()
      ensures pages == 0 ==> address == 0 && bits == old(bits)
      ensures pages > 0 ==>
                match FirstRun(old(bits), pages, 0)
                case Some(r) => r > 0 && address == r * PAGE_SIZE && bits == Fill(old(bits), r, pages)
                case None => address == 0 && bits == old(bits)
    {
      if pages == 0 || pages > PAGES {
        FirstRunMeaning(bits, pages, 0);
        return 0;
      }
      var i := 0;
      while i <= PAGES - pages
        invariant Valid() && bits == old(bits)
        invariant forall s :: 0 <= s < i ==> !Clear(bits, s, pages)
      {
        var found, j := true, 0;
        var start := i;
        while j < pages
          invariant Valid() && bits == old(bits)
          invariant j <= pages && i == start
          invariant forall p :: start <= p < start + j ==> !bits[p]
          invariant found
        {
          var used := Test(start + j);
          if used {
            found := false;
            i := start + j;
            break;
          }
          j := j + 1;
        }
        if found {
          TakeRun(i, pages);
          return i * PAGE_SIZE;
        }
        i := i + 1;
      }
      FirstRunMeaning(bits, pages, 0);
      return 0;
    }

    method TakeRun(i: nat, pages: nat)
      requires Valid() && 0 < pages && Clear(bits, i, pages)
      requires forall s :: 0 <= s < i ==> !Clear(bits, s, pages)
      modifies this, bitmap
      ensures Valid() && bits == Fill(old(bits), i, pages)
      ensures FirstRun(old(bits), pages, 0) == Some(i) && i > 0
    {
      FirstRunIs(bits, pages, i);
      CountFill(bits, i, pages);
      assert i > 0 by { assert !bits[i]; }
      MarkRun(i, pages);
      freeCount := freeCount - pages;
    }

    /** The loop that marks a run. */
    method MarkRun(i: nat, pages: nat)
      requires Mapped() && i + pages <= PAGES
      modifies `bits, bitmap
      ensures Mapped() && bits == Fill(old(bits), i, pages)
    {
      FillNone(bits, i);
      assert |bits| == PAGES;
      hide Mapped, Fill;
      var j := 0;
      while j < pages
        invariant j <= pages && Mapped() && bits == Fill(old(bits), i, j)
      {
        FillNext(old(bits), i, j);
        Mark(i + j, true);
        j := j + 1;
      }
    }
  }

  lemma AllOnes()
    ensures forall j :: 0 <= j < 8 ==> BitSet(0xFF, j)
  {
    forall j: nat | j < 8
      ensures BitSet(0xFF, j)
    {
      assert j == 0 || j == 1 || j == 2 || j == 3 || j == 4 || j == 5 || j == 6 || j == 7;
    }
  }
}
