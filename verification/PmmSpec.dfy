/** What the physical page allocator means, over the sequence of its "page in use" bits. */
module PmmSpec {
  import opened Wrappers
  import opened Machine

  const PAGES: nat := 32768
  const PAGE_SIZE: nat := 4096

  /** Pages [s, s + n) are all free. */
  ghost predicate Clear(bits: seq<bool>, s: nat, n: nat) {
    s + n <= |bits| && forall p :: s <= p < s + n ==> !bits[p]
  }

  /** Naive search: try every start from s upwards. */
  ghost function FirstRun(bits: seq<bool>, n: nat, s: nat): (r: Option<nat>)
    ensures r.Some? ==> r.value + n <= |bits|
    decreases |bits| - s
  {
    if s + n > |bits| then None
    else if Clear(bits, s, n) then Some(s)
    else if s == |bits| then None
    else FirstRun(bits, n, s + 1)
  }

  /** The naive search finds the least start, and fails only when there is none. */
  lemma {:induction false} FirstRunMeaning(bits: seq<bool>, n: nat, s: nat)
    ensures match FirstRun(bits, n, s)
            case Some(r) => s <= r && Clear(bits, r, n) && forall t :: s <= t < r ==> !Clear(bits, t, n)
            case None => forall t :: s <= t ==> !Clear(bits, t, n)
    decreases |bits| - s
  {
    if s + n <= |bits| && !Clear(bits, s, n) && s < |bits| {
      FirstRunMeaning(bits, n, s + 1);
    }
  }

  lemma FirstRunIs(bits: seq<bool>, n: nat, r: nat)
    requires Clear(bits, r, n) && forall t :: 0 <= t < r ==> !Clear(bits, t, n)
    ensures FirstRun(bits, n, 0) == Some(r)
  {
    FirstRunMeaning(bits, n, 0);
  }

  /** Pages in use start no free run. */
  lemma UsedStartsNoRun(bits: seq<bool>, i: nat)
    requires i <= |bits| && forall p :: 0 <= p < i ==> bits[p]
    ensures forall t :: 0 <= t < i ==> !Clear(bits, t, 1)
  {
    forall t | 0 <= t < i
      ensures !Clear(bits, t, 1)
    {
      assert bits[t];
    }
  }

  /** The bits after pages [s, s + n) have been taken. */
  ghost function Fill(bits: seq<bool>, s: nat, n: nat): (r: seq<bool>)
    requires s + n <= |bits|
    ensures |r| == |bits|
    ensures forall p :: 0 <= p < |bits| ==> (r[p] <==> s <= p < s + n || bits[p])
  {
    bits[..s] + seq(n, _ => true) + bits[s + n..]
  }

  lemma FillNext(bits: seq<bool>, s: nat, n: nat)
    requires s + n < |bits|
    ensures Fill(bits, s, n)[s + n := true] == Fill(bits, s, n + 1)
  {
  }

  /** The number of free pages. */
  ghost function CountClear(bits: seq<bool>): nat {
    if bits == [] then 0
    else CountClear(bits[..|bits| - 1]) + if bits[|bits| - 1] then 0 else 1
  }

  lemma {:induction false} CountUpdate(bits: seq<bool>, p: nat, used: bool)
    requires p < |bits|
    ensures CountClear(bits[p := used]) + (if bits[p] then 0 else 1) == CountClear(bits) + (if used then 0 else 1)
  {
    var last := |bits| - 1;
    if p == last {
      assert bits[p := used][..last] == bits[..last];
    } else {
      CountUpdate(bits[..last], p, used);
      assert bits[p := used][..last] == bits[..last][p := used];
    }
  }

  lemma CountTake(bits: seq<bool>, p: nat)
    requires p < |bits| && !bits[p]
    ensures CountClear(bits[p := true]) + 1 == CountClear(bits)
  {
    CountUpdate(bits, p, true);
  }

  lemma FillNone(bits: seq<bool>, s: nat)
    requires s <= |bits|
    ensures Fill(bits, s, 0) == bits
  {
  }

  lemma {:induction false} CountFill(bits: seq<bool>, s: nat, n: nat)
    requires Clear(bits, s, n)
    ensures CountClear(Fill(bits, s, n)) + n == CountClear(bits)
  {
    if n == 0 {
      FillNone(bits, s);
    } else {
      CountFill(bits, s, n - 1);
      FillNext(bits, s, n - 1);
      CountTake(Fill(bits, s, n - 1), s + n - 1);
    }
  }

  lemma {:induction false} CountPositive(bits: seq<bool>, p: nat)
    requires p < |bits| && !bits[p]
    ensures CountClear(bits) >= 1
  {
    if p < |bits| - 1 {
      CountPositive(bits[..|bits| - 1], p);
    }
  }

  lemma {:induction false} CountAllUsed(bits: seq<bool>)
    requires forall p :: 0 <= p < |bits| ==> bits[p]
    ensures CountClear(bits) == 0
  {
    if bits != [] {
      CountAllUsed(bits[..|bits| - 1]);
    }
  }

  /** With a page free, a single page is found. */
  lemma FreePageFound(bits: seq<bool>)
    requires CountClear(bits) > 0
    ensures FirstRun(bits, 1, 0).Some?
  {
    FirstRunMeaning(bits, 1, 0);
    if FirstRun(bits, 1, 0).None? {
      forall p | 0 <= p < |bits|
        ensures bits[p]
      {
        assert !Clear(bits, p, 1);
      }
      CountAllUsed(bits);
    }
  }

  // ----- Boot-time map ---------------------------------------------------

  /** An E820 entry; type 1 is usable memory. */
  datatype E820Entry = E820Entry(base: nat, len: nat, kind: nat)

  ghost predicate IsWords(e: E820Entry) {
    e.base < WORD && e.len < WORD
  }

  /** First and last-plus-one page of an entry, in the source's wrapping 64-bit arithmetic. */
  function StartPage(e: E820Entry): nat {
    (e.base + PAGE_SIZE - 1) % WORD / PAGE_SIZE
  }

  function EndPage(e: E820Entry): nat {
    (e.base + e.len) % WORD / PAGE_SIZE
  }

  /** Some usable entry among the first n frees page p. */
  ghost predicate Offered(table: seq<E820Entry>, n: nat, p: nat) {
    exists i :: 0 <= i < n && i < |table| && table[i].kind == 1 && StartPage(table[i]) <= p < EndPage(table[i])
  }

  /** Low memory, the kernel image, the page tables, the user blobs and the ramdisk. */
  ghost predicate Reserved(p: nat, kernelStart: nat, kernelEnd: nat) {
    || p < 0x100000 / PAGE_SIZE
    || kernelStart / PAGE_SIZE <= p <= kernelEnd / PAGE_SIZE
    || 0x9000 / PAGE_SIZE <= p < 0xD000 / PAGE_SIZE
    || 0x200000 / PAGE_SIZE <= p < 0x240000 / PAGE_SIZE
    || 0x400000 / PAGE_SIZE <= p < 0x440000 / PAGE_SIZE
  }

  /** The byte range of page p lies wholly inside the entry's byte range. */
  ghost predicate WhollyInside(e: E820Entry, p: nat) {
    e.base <= p * PAGE_SIZE && (p + 1) * PAGE_SIZE <= e.base + e.len
  }

  /** Exactly the entries for which the computed pages below 32768 are the contained ones: no sum wraps,
      or the wrap is out of the bitmap's sight. */
  ghost predicate RoundsRight(e: E820Entry) {
    if e.base + PAGE_SIZE - 1 < WORD then e.base + e.len < WORD || e.base > (PAGES - 1) * PAGE_SIZE
    else WORD <= e.base + e.len < WORD + PAGE_SIZE
  }

  lemma RoundingExactIff(e: E820Entry)
    requires IsWords(e)
    ensures (forall p :: 0 <= p < PAGES ==> (StartPage(e) <= p < EndPage(e) <==> WhollyInside(e, p))) <==> RoundsRight(e)
  {
    WrappedSum(e.base + PAGE_SIZE - 1);
    WrappedSum(e.base + e.len);
    var first, last := 0, PAGES - 1;
    if RoundsRight(e) {
      forall p | 0 <= p < PAGES
        ensures StartPage(e) <= p < EndPage(e) <==> WhollyInside(e, p)
      {
      }
    } else if e.base + PAGE_SIZE - 1 < WORD {
      assert WhollyInside(e, last) && !(StartPage(e) <= last < EndPage(e));
    } else {
      assert !WhollyInside(e, first) && StartPage(e) <= first < EndPage(e);
    }
  }

  /** All ways of wrapping happen: only the end wraps, and an entry that contains page 1 frees nothing;
      both sums wrap, and one near the top of the address space frees page 0; only the start wraps, and
      an empty entry frees every page. */
  lemma RoundingFails()
    ensures var e := E820Entry(0x1000, WORD - 1, 1);
            IsWords(e) && !RoundsRight(e) && WhollyInside(e, 1) && !(StartPage(e) <= 1 < EndPage(e))
    ensures var e := E820Entry(WORD - 1, 0x2001, 1);
            IsWords(e) && !RoundsRight(e) && !WhollyInside(e, 0) && StartPage(e) <= 0 < EndPage(e)
    ensures var e := E820Entry(WORD - 1, 0, 1);
            && IsWords(e) && !RoundsRight(e)
            && forall p :: 0 <= p < PAGES ==> !WhollyInside(e, p) && StartPage(e) <= p < EndPage(e)
  {
    WrappedSum(WORD - 1);
    WrappedSum(WORD + 0xFFE);
    WrappedSum(WORD + 0xFFF);
    WrappedSum(WORD + 0x2000);
    var e := E820Entry(WORD - 1, 0, 1);
    assert StartPage(e) == 0 && EndPage(e) >= PAGES;
    forall p | 0 <= p < PAGES
      ensures !WhollyInside(e, p) && StartPage(e) <= p < EndPage(e)
    {
    }
  }

  /** The boot map: free exactly when wholly inside an honoured usable entry and not reserved. */
  lemma BootMapExact(table: seq<E820Entry>, bits: seq<bool>, kernelStart: nat, kernelEnd: nat)
    requires |bits| == PAGES
    requires forall p :: 0 <= p < PAGES ==>
               (!bits[p] <==>
                && (exists i :: 0 <= i < |table| && i < 64 && table[i].kind == 1
                                && StartPage(table[i]) <= p < EndPage(table[i]))
                && !Reserved(p, kernelStart, kernelEnd))
    requires forall i :: 0 <= i < |table| && i < 64 && table[i].kind == 1 ==> IsWords(table[i]) && RoundsRight(table[i])
    ensures forall p :: 0 <= p < PAGES ==>
              (!bits[p] <==>
               && (exists i :: 0 <= i < |table| && i < 64 && table[i].kind == 1 && WhollyInside(table[i], p))
               && !Meets(p, 0, 0x10_0000) && !Meets(p, kernelStart, kernelEnd + 1) && !Meets(p, 0x9000, 0xD000)
               && !Meets(p, 0x20_0000, 0x24_0000) && !Meets(p, 0x40_0000, 0x44_0000))
  {
    forall p | 0 <= p < PAGES
      ensures !bits[p] <==>
               && (exists i :: 0 <= i < |table| && i < 64 && table[i].kind == 1 && WhollyInside(table[i], p))
               && !Meets(p, 0, 0x10_0000) && !Meets(p, kernelStart, kernelEnd + 1) && !Meets(p, 0x9000, 0xD000)
               && !Meets(p, 0x20_0000, 0x24_0000) && !Meets(p, 0x40_0000, 0x44_0000)
    {
      InsideExactly(table, p);
      ReservedMeets(p, kernelStart, kernelEnd);
    }
  }

  /** The pages the computed ranges free are the ones contained in an entry. */
  lemma InsideExactly(table: seq<E820Entry>, p: nat)
    requires p < PAGES
    requires forall i :: 0 <= i < |table| && i < 64 && table[i].kind == 1 ==> IsWords(table[i]) && RoundsRight(table[i])
    ensures (exists i :: 0 <= i < |table| && i < 64 && table[i].kind == 1
                         && StartPage(table[i]) <= p < EndPage(table[i]))
            <==> exists i :: 0 <= i < |table| && i < 64 && table[i].kind == 1 && WhollyInside(table[i], p)
  {
    forall i | 0 <= i < |table| && i < 64 && table[i].kind == 1
      ensures StartPage(table[i]) <= p < EndPage(table[i]) <==> WhollyInside(table[i], p)
    {
      RoundingExactIff(table[i]);
    }
  }

  /** Page p has a byte in [lo, hi). */
  ghost predicate Meets(p: nat, lo: nat, hi: nat) {
    p * PAGE_SIZE < hi && lo < (p + 1) * PAGE_SIZE
  }

  /** The reserved pages are those that have a byte in a reserved range; the kernel's end is in its last page. */
  lemma ReservedMeets(p: nat, kernelStart: nat, kernelEnd: nat)
    ensures Reserved(p, kernelStart, kernelEnd) <==>
            || Meets(p, 0, 0x10_0000) || Meets(p, kernelStart, kernelEnd + 1) || Meets(p, 0x9000, 0xD000)
            || Meets(p, 0x20_0000, 0x24_0000) || Meets(p, 0x40_0000, 0x44_0000)
  {
  }
}
