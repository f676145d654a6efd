/** The kernel's identity map and the process page tables, against the four-level walk of 4-level
    paging (Intel SDM volume 3A, section 4.5). Memory is an array of 64-bit entries: mem[q] is the
    entry at physical address 8 * q. */
module PageTables {
  import opened Wrappers
  import opened Machine
  import opened Bits
  import opened PmmSpec
  import opened Pmm

  const KERNEL_PML4: nat := 0x9
  const KERNEL_PDPT: nat := 0xA
  const KERNEL_PD: nat := 0xB
  const GIB: nat := 0x4000_0000

  // ----- The walk ------------------------------------------------------------------

  predicate Present(e: nat) {
    e % 2 == 1
  }

  predicate UserBit(e: nat) {
    e / 4 % 2 == 1
  }

  predicate Writable(e: nat) {
    e / 2 % 2 == 1
  }

  predicate LargePage(e: nat) {
    e / 128 % 2 == 1
  }

  /** Bits 12 to 51 of an entry: the table or page it points to. */
  function PageField(e: nat): nat {
    e / 0x1000 % 0x100_0000_0000
  }

  /** Bits 21 to 51 of an entry for a 2 MiB page. */
  function LargeField(e: nat): nat {
    e / 0x20_0000 % 0x8000_0000
  }

  /** Bits that must be clear in a 1 GiB entry (13 to 29) and in a 2 MiB entry (13 to 20). In a PML4 entry
      it is bit 7. Physical addresses are taken to be 52 bits wide. */
  predicate HugeReserved(e: nat) {
    e / 0x2000 % 0x2_0000 != 0
  }

  predicate LargeReserved(e: nat) {
    e / 0x2000 % 0x100 != 0
  }

  /** Where an address leads, whether user code may go there, and whether it may be written. */
  datatype Mapping = Mapping(phys: nat, user: bool, writable: bool)

  /** The entry at an index of the table in a page; missing memory reads as not present. */
  function EntryAt(mem: seq<nat>, page: nat, index: nat): nat {
    if page * 512 + index < |mem| then mem[page * 512 + index] else 0
  }

  /** Translation of a 48-bit linear address; none, a page fault, when some level is not present or has a
      reserved bit set. */
  function Walk(mem: seq<nat>, cr3: nat, va: nat): Option<Mapping> {
    var e4 := EntryAt(mem, PageField(cr3), va / 0x80_0000_0000 % 512);
    if !Present(e4) || LargePage(e4) then None
    else
      var e3 := EntryAt(mem, PageField(e4), va / 0x4000_0000 % 512);
      if !Present(e3) then None
      else if LargePage(e3) then
        if HugeReserved(e3) then None
        else Some(Mapping(e3 / 0x4000_0000 % 0x40_0000 * 0x4000_0000 + va % 0x4000_0000, UserBit(e4) && UserBit(e3),
                          Writable(e4) && Writable(e3)))
      else
        var e2 := EntryAt(mem, PageField(e3), va / 0x20_0000 % 512);
        if !Present(e2) then None
        else if LargePage(e2) then
          if LargeReserved(e2) then None
          else Some(Mapping(LargeField(e2) * 0x20_0000 + va % 0x20_0000, UserBit(e4) && UserBit(e3) && UserBit(e2),
                            Writable(e4) && Writable(e3) && Writable(e2)))
        else
          var e1 := EntryAt(mem, PageField(e2), va / 0x1000 % 512);
          if !Present(e1) then None
          else Some(Mapping(PageField(e1) * 0x1000 + va % 0x1000,
                            UserBit(e4) && UserBit(e3) && UserBit(e2) && UserBit(e1),
                            Writable(e4) && Writable(e3) && Writable(e2) && Writable(e1)))
  }

  // ----- Table shapes --------------------------------------------------------------

  /** An entry as software wrote it, with any accessed and dirty flags (bits 5 and 6) the processor
      has set in it since. */
  predicate Marked(e: nat, clean: nat) {
    e == clean || e == clean + 0x20 || e == clean + 0x40 || e == clean + 0x60
  }

  /** A present, writable 2 MiB page mapped to itself; the user region's entry carries extra flags. */
  function PageEntry(i: nat, extra: nat): nat {
    0x83 + i * 0x20_0000 + if i == 1 then extra else 0
  }

  /** A table with one entry, at index 0, pointing to a page. */
  ghost predicate SinglePointer(mem: seq<nat>, page: nat, target: nat, flags: nat) {
    && page * 512 + 512 <= |mem|
    && Marked(EntryAt(mem, page, 0), target * 4096 + flags)
    && forall i :: 1 <= i < 512 ==> EntryAt(mem, page, i) == 0
  }

  /** A page directory mapping the first GiB to itself in 2 MiB pages. */
  ghost predicate IdentityPD(mem: seq<nat>, page: nat, extra: nat) {
    && page * 512 + 512 <= |mem|
    && forall i :: 0 <= i < 512 ==> Marked(EntryAt(mem, page, i), PageEntry(i, extra))
  }

  /** The three tables of an address space, in use or not. */
  ghost predicate Tables(mem: seq<nat>, pml4: nat, pdpt: nat, pd: nat, flags: nat, extra: nat) {
    && pml4 < PAGES && pdpt < PAGES && pd < PAGES
    && SinglePointer(mem, pml4, pdpt, flags) && SinglePointer(mem, pdpt, pd, flags) && IdentityPD(mem, pd, extra)
  }

  /** The flags the processor has set, as a number of 0x20s. */
  function Marks(e: nat, clean: nat): (m: nat)
    requires Marked(e, clean)
    ensures m < 4 && e == clean + 0x20 * m
  {
    if e == clean then 0 else if e == clean + 0x20 then 1 else if e == clean + 0x40 then 2 else 3
  }

  /** Single fields of an entry, read off its value written as a sum. */
  lemma FirstBit(e: nat, half: nat)
    requires e == 2 * half + 1
    ensures Present(e)
  {
  }

  lemma SecondBit(e: nat, quarter: nat)
    requires e == 4 * quarter + 3
    ensures Writable(e)
  {
    DivModUnique(e, 2, 2 * quarter + 1, 1);
    DivModUnique(2 * quarter + 1, 2, quarter, 1);
  }

  lemma ThirdBit(e: nat, high: nat, bit: nat)
    requires e == 8 * high + 4 * bit + 3 && bit < 2
    ensures UserBit(e) <==> bit == 1
  {
    DivModUnique(e, 4, 2 * high + bit, 3);
    DivModUnique(2 * high + bit, 2, high, bit);
  }

  lemma EighthBit(e: nat, high: nat, bit: nat, low: nat)
    requires e == 256 * high + 128 * bit + low && bit < 2 && low < 128
    ensures LargePage(e) <==> bit == 1
  {
    DivModUnique(e, 128, 2 * high + bit, low);
    DivModUnique(2 * high + bit, 2, high, bit);
  }

  lemma AddressFields(e: nat, page: nat, low: nat)
    ensures e == 0x1000 * page + low && low < 0x1000 && page < PAGES ==> PageField(e) == page
    ensures e == 0x20_0000 * page + low && low < 0x20_0000 && page < 512 ==> LargeField(e) == page
  {
  }

  /** The bits between the flags and the address of a 2 MiB page are clear; read as a 1 GiB entry, the
      same number has them set unless it is the first. */
  lemma ReservedFields(e: nat, i: nat, low: nat)
    requires e == 0x20_0000 * i + low && low < 0x2000 && i < 512
    ensures !LargeReserved(e) && (HugeReserved(e) <==> i > 0)
  {
    DivModUnique(e, 0x2000, 0x100 * i, low);
    DivModUnique(0x100 * i, 0x100, i, 0);
    DivModUnique(0x100 * i, 0x2_0000, 0, 0x100 * i);
  }

  lemma PointerFields(target: nat, flags: nat, e: nat)
    requires target < PAGES && (flags == 3 || flags == 7) && Marked(e, target * 4096 + flags)
    ensures PageField(e) == target && Present(e) && Writable(e) && !LargePage(e) && (UserBit(e) <==> flags == 7)
  {
    var m, user := Marks(e, target * 4096 + flags), if flags == 7 then 1 else 0;
    hide *;
    AddressFields(e, target, 0x20 * m + flags);
    FirstBit(e, target * 2048 + 16 * m + 1 + 2 * user);
    SecondBit(e, target * 1024 + 8 * m + user);
    ThirdBit(e, target * 512 + 4 * m, user);
    EighthBit(e, target * 16, 0, 0x20 * m + flags);
  }

  lemma LargeFields(i: nat, extra: nat, e: nat)
    requires i < 512 && (extra == 0 || extra == 4) && Marked(e, 0x83 + i * 0x20_0000 + extra)
    ensures LargeField(e) == i && Present(e) && Writable(e) && LargePage(e) && (UserBit(e) <==> extra == 4)
    ensures !LargeReserved(e) && (HugeReserved(e) <==> i > 0)
  {
    var m, user := Marks(e, 0x83 + i * 0x20_0000 + extra), if extra == 4 then 1 else 0;
    hide *;
    AddressFields(e, i, 0x83 + 0x20 * m + extra);
    ReservedFields(e, i, 0x83 + 0x20 * m + extra);
    FirstBit(e, i * 0x10_0000 + 0x41 + 16 * m + 2 * user);
    SecondBit(e, i * 0x8_0000 + 0x20 + 8 * m + user);
    ThirdBit(e, i * 0x4_0000 + 0x10 + 4 * m, user);
    EighthBit(e, i * 0x2000, 1, 3 + 0x20 * m + extra);
  }

  /** The walk over such tables: writable identity below 1 GiB, nothing above, user access exactly where the
      pointers grant it and the address lies in the user region. */
  lemma WalkExact(mem: seq<nat>, pml4: nat, pdpt: nat, pd: nat, flags: nat, extra: nat, va: nat)
    requires Tables(mem, pml4, pdpt, pd, flags, extra) && va < 0x1_0000_0000_0000
    requires (flags == 3 || flags == 7) && (extra == 0 || extra == 4)
    ensures Walk(mem, pml4 * PAGE_SIZE, va)
            == if va < GIB then Some(Mapping(va, flags == 7 && extra == 4 && USER_START <= va < USER_END, true)) else None
  {
    hide Present, UserBit, Writable, LargePage, PageField, LargeField, LargeReserved, Marked;
    Cr3Field(pml4);
    PointerFields(pdpt, flags, EntryAt(mem, pml4, 0));
    PointerFields(pd, flags, EntryAt(mem, pdpt, 0));
    NotPresentZero();
    var i := va / 0x20_0000 % 512;
    AddressParts(va);
    assert Marked(EntryAt(mem, pd, i), PageEntry(i, extra));
    LargeFields(i, if i == 1 then extra else 0, EntryAt(mem, pd, i));
  }

  /** A directory in page 0 that is also the pointer table above it: its first entry reads as a 1 GiB
      supervisor page and the others have reserved bits set. User code reaches nothing. */
  lemma CollapsedWalk(mem: seq<nat>, pml4: nat, va: nat)
    requires IdentityPD(mem, 0, 4) && 0 < pml4 < PAGES && va < 0x1_0000_0000_0000
    requires SinglePointer(mem, pml4, 0, 7)
    ensures Walk(mem, pml4 * PAGE_SIZE, va) == if va < GIB then Some(Mapping(va, false, true)) else None
  {
    hide Present, UserBit, Writable, LargePage, PageField, Marked, HugeReserved;
    Cr3Field(pml4);
    PointerFields(0, 7, EntryAt(mem, pml4, 0));
    NotPresentZero();
    AddressParts(va);
    var i := va / 0x4000_0000 % 512;
    assert Marked(EntryAt(mem, 0, i), PageEntry(i, 4));
    LargeFields(i, if i == 1 then 4 else 0, EntryAt(mem, 0, i));
    FirstGiB(EntryAt(mem, 0, 0), va);
  }

  lemma FirstGiB(e: nat, va: nat)
    requires Marked(e, PageEntry(0, 4))
    ensures va < GIB ==> e / 0x4000_0000 % 0x40_0000 * 0x4000_0000 + va % 0x4000_0000 == va
  {
  }

  /** The same page as the top table too: bit 7 of every entry is reserved there, and nothing is mapped. */
  lemma NothingMapped(mem: seq<nat>, va: nat)
    requires IdentityPD(mem, 0, 4) && va < 0x1_0000_0000_0000
    ensures Walk(mem, 0, va) == None
  {
    var i := va / 0x80_0000_0000 % 512;
    assert Marked(EntryAt(mem, 0, i), PageEntry(i, 4));
    LargeFields(i, if i == 1 then 4 else 0, EntryAt(mem, 0, i));
    Cr3Field(0);
  }

  lemma Cr3Field(page: nat)
    requires page < PAGES
    ensures PageField(page * PAGE_SIZE) == page
  {
  }

  lemma NotPresentZero()
    ensures !Present(0)
  {
  }

  lemma AddressParts(va: nat)
    requires va < 0x1_0000_0000_0000
    ensures va < GIB <==> va / 0x80_0000_0000 % 512 == 0 && va / 0x4000_0000 % 512 == 0
    ensures va < GIB ==> va == va / 0x20_0000 % 512 * 0x20_0000 + va % 0x20_0000
    ensures va < GIB ==> (USER_START <= va < USER_END <==> va / 0x20_0000 % 512 == 1)
  {
  }

  // ----- Building the tables ---------------------------------------------------------

  /** All present entries are zeroed, then the three kernel tables are filled: two pointers and the
      512-entry loop over 2 MiB pages. The 32-bit stores leave the zeroed upper halves alone. */
  method FillKernelTables(mem: array<nat>)
    requires mem.Length == PAGES * 512
    modifies mem
    ensures Tables(mem[..], KERNEL_PML4, KERNEL_PDPT, KERNEL_PD, 3, 0)
    ensures forall i :: 0 <= i < 512 ==> EntryAt(mem[..], KERNEL_PD, i) == PageEntry(i, 0)
    ensures forall q :: 0 <= q < mem.Length && !(KERNEL_PML4 * 512 <= q < (KERNEL_PD + 1) * 512) ==> mem[q] == old(mem[q])
  {
    var q: nat := KERNEL_PML4 * 512;
    while q < (KERNEL_PD + 1) * 512
      invariant KERNEL_PML4 * 512 <= q <= (KERNEL_PD + 1) * 512
      invariant forall k :: KERNEL_PML4 * 512 <= k < q ==> mem[k] == 0
      invariant forall k :: 0 <= k < mem.Length && !(KERNEL_PML4 * 512 <= k < (KERNEL_PD + 1) * 512) ==> mem[k] == old(mem[k])
    {
      mem[q] := 0;
      q := q + 1;
    }
    mem[KERNEL_PML4 * 512] := 0xA003;
    mem[KERNEL_PDPT * 512] := 0xB003;
    var eax: nat, edi: nat, i: nat := 0x83, KERNEL_PD * 512, 0;
    ghost var before := mem[..];
    while i < 512
      invariant i <= 512 && eax == 0x83 + i * 0x20_0000 && edi == KERNEL_PD * 512 + i
      invariant forall k :: 0 <= k < i ==> mem[KERNEL_PD * 512 + k] == 0x83 + k * 0x20_0000
      invariant forall k :: 0 <= k < mem.Length && !(KERNEL_PD * 512 <= k < (KERNEL_PD + 1) * 512) ==> mem[k] == before[k]
    {
      mem[edi] := eax;
      eax := eax + 0x20_0000;
      edi := edi + 1;
      i := i + 1;
    }
  }

  /** A page for a table: the lowest free one, or page 0 when there is none. */
  method TakeTable(pmm: PageAllocator) returns (page: nat)
    requires pmm.Valid()
    modifies pmm, pmm.bitmap
    ensures pmm.Valid()
    ensures old(pmm.freeCount) == 0 ==> page == 0 && pmm.bits == old(pmm.bits) && pmm.freeCount == 0
    ensures old(pmm.freeCount) > 0 ==>
              && pmm.freeCount == old(pmm.freeCount) - 1
              && 0 < page < PAGES && !old(pmm.bits[page]) && pmm.bits == old(pmm.bits)[page := true]
  {
    ghost var was := pmm.bits;
    FirstRunMeaning(was, 1, 0);
    if pmm.freeCount > 0 {
      FreePageFound(was);
    } else if FirstRun(was, 1, 0).Some? {
      CountPositive(was, FirstRun(was, 1, 0).value);
    }
    var address := pmm.AllocPage();
    page := address / PAGE_SIZE;
    if page > 0 {
      assert Clear(was, page, 1);
      CountTake(was, page);
    }
  }

  /** The one process address space the kernel keeps. */
  class Process {
    var cr3: nat
    var built: bool

    constructor ()
      ensures !built
    {
      cr3, built := 0, false;
    }

    /** Builds the tables: user code reaches exactly its region, everything else below 1 GiB is the
        kernel's identity map, all of it may be written, and nothing is mapped above. The source does not check for a failed
        page allocation. With two free pages the directory lands in page 0, and the map is still right;
        with one, the pointer table does too, and user code reaches nothing; with none, all three
        tables are page 0, and nothing at all is mapped. */
    method BuildAddressSpace(pmm: PageAllocator, mem: array<nat>)
      requires pmm.Valid() && mem.Length == PAGES * 512
      requires pmm.bits[KERNEL_PD] && IdentityPD(mem[..], KERNEL_PD, 0)
      modifies this, pmm, pmm.bitmap, mem
      ensures pmm.Valid() && built
      ensures pmm.freeCount == if old(pmm.freeCount) < 3 then 0 else old(pmm.freeCount) - 3
      ensures old(pmm.freeCount) >= 2 ==>
                forall va :: 0 <= va < 0x1_0000_0000_0000 ==>
                  Walk(mem[..], cr3, va)
                  == if va < GIB then Some(Mapping(va, USER_START <= va < USER_END, true)) else None
      ensures old(pmm.freeCount) == 1 ==>
                forall va :: 0 <= va < 0x1_0000_0000_0000 ==>
                  Walk(mem[..], cr3, va) == if va < GIB then Some(Mapping(va, false, true)) else None
      ensures old(pmm.freeCount) == 0 ==>
                forall va :: 0 <= va < 0x1_0000_0000_0000 ==> Walk(mem[..], cr3, va) == None
      ensures forall q :: 0 <= q < mem.Length && old(pmm.bits[q / 512]) && (q < 512 ==> old(pmm.freeCount) >= 3) ==>
                mem[q] == old(mem[q])
      ensures IdentityPD(mem[..], KERNEL_PD, 0)
    {
      hide IdentityPD, Walk, CountClear;
      ghost var bits, free := pmm.bits, pmm.freeCount;
      ghost var was := mem[..];
      var pml4 := TakeTable(pmm);
      var pdpt := TakeTable(pmm);
      var pd := TakeTable(pmm);
      assert mem[..] == was;
      FillProcessTables(mem, pml4, pdpt, pd);
      cr3, built := pml4 * PAGE_SIZE, true;
      if free >= 2 {
        forall va | 0 <= va < 0x1_0000_0000_0000
          ensures Walk(mem[..], cr3, va)
                  == if va < GIB then Some(Mapping(va, USER_START <= va < USER_END, true)) else None
        {
          WalkExact(mem[..], pml4, pdpt, pd, 7, 4, va);
        }
      } else if free == 1 {
        forall va | 0 <= va < 0x1_0000_0000_0000
          ensures Walk(mem[..], cr3, va) == if va < GIB then Some(Mapping(va, false, true)) else None
        {
          CollapsedWalk(mem[..], pml4, va);
        }
      } else {
        forall va | 0 <= va < 0x1_0000_0000_0000
          ensures Walk(mem[..], cr3, va) == None
        {
          NothingMapped(mem[..], va);
        }
      }
      forall q | 0 <= q < mem.Length && bits[q / 512] && (q < 512 ==> free >= 3)
        ensures mem[q] == was[q]
      {
        assert !InPage(pml4, q) && !InPage(pdpt, q) && !InPage(pd, q);
      }
      SamePD(was, mem[..], KERNEL_PD);
    }
  }

  lemma SamePD(was: seq<nat>, mem: seq<nat>, page: nat)
    requires IdentityPD(was, page, 0) && |mem| == |was|
    requires forall q :: page * 512 <= q < page * 512 + 512 && q < |was| ==> mem[q] == was[q]
    ensures IdentityPD(mem, page, 0)
  {
    forall i | 0 <= i < 512
      ensures EntryAt(mem, page, i) == EntryAt(was, page, i)
    {
    }
  }

  /** Entry q lies in the table held by a page. */
  predicate InPage(page: nat, q: nat) {
    page * 512 <= q < page * 512 + 512
  }

  /** The zeroing loop over all three pages. */
  method ZeroTables(mem: array<nat>, pml4: nat, pdpt: nat, pd: nat)
    requires mem.Length == PAGES * 512 && pml4 < PAGES && pdpt < PAGES && pd < PAGES
    modifies mem
    ensures forall q :: 0 <= q < mem.Length ==>
              mem[q] == if InPage(pml4, q) || InPage(pdpt, q) || InPage(pd, q) then 0 else old(mem[q])
  {
    var i: nat := 0;
    while i < 512
      invariant i <= 512
      invariant forall q :: 0 <= q < mem.Length ==>
                  mem[q] == if pml4 * 512 <= q < pml4 * 512 + i || pdpt * 512 <= q < pdpt * 512 + i
                               || pd * 512 <= q < pd * 512 + i then 0 else old(mem[q])
    {
      mem[pml4 * 512 + i] := 0;
      mem[pdpt * 512 + i] := 0;
      mem[pd * 512 + i] := 0;
      i := i + 1;
    }
  }

  /** The copy of the kernel directory, the processor's flags in it included, with the user bit or-ed
      into entry 1. */
  method CopyDirectory(mem: array<nat>, pd: nat)
    requires mem.Length == PAGES * 512 && IdentityPD(mem[..], KERNEL_PD, 0) && pd < PAGES && pd != KERNEL_PD
    modifies mem
    ensures IdentityPD(mem[..], pd, 4)
    ensures forall i :: 0 <= i < 512 ==>
              EntryAt(mem[..], pd, i) == old(EntryAt(mem[..], KERNEL_PD, i)) + if i == 1 then 4 else 0
    ensures forall q :: 0 <= q < mem.Length && !InPage(pd, q) ==> mem[q] == old(mem[q])
  {
    ghost var was := mem[..];
    var i: nat := 0;
    while i < 512
      invariant i <= 512
      invariant forall k :: 0 <= k < i ==>
                  mem[pd * 512 + k] == EntryAt(was, KERNEL_PD, k) + if k == 1 then 4 else 0
      invariant forall q :: 0 <= q < mem.Length && !InPage(pd, q) ==> mem[q] == was[q]
    {
      var e := mem[KERNEL_PD * 512 + i];
      assert e == EntryAt(was, KERNEL_PD, i);
      if i == 1 {
        UserFlag(e);
        e := Or(e, 0x4);
      }
      mem[pd * 512 + i] := e;
      i := i + 1;
    }
    CopiedPD(was, mem[..], pd);
  }

  lemma CopiedPD(was: seq<nat>, mem: seq<nat>, pd: nat)
    requires IdentityPD(was, KERNEL_PD, 0) && pd * 512 + 512 <= |mem|
    requires forall i :: 0 <= i < 512 ==> mem[pd * 512 + i] == EntryAt(was, KERNEL_PD, i) + if i == 1 then 4 else 0
    ensures IdentityPD(mem, pd, 4)
  {
    forall i | 0 <= i < 512
      ensures Marked(EntryAt(mem, pd, i), PageEntry(i, 4))
    {
      assert Marked(EntryAt(was, KERNEL_PD, i), PageEntry(i, 0));
      assert EntryAt(mem, pd, i) == mem[pd * 512 + i];
    }
  }

  /** The tables of the process: zeroed, the two pointers, the directory. Three pages make the tables;
      a directory that shares its page with a pointer table overwrites it. */
  method FillProcessTables(mem: array<nat>, pml4: nat, pdpt: nat, pd: nat)
    requires mem.Length == PAGES * 512 && IdentityPD(mem[..], KERNEL_PD, 0)
    requires pml4 < PAGES && pdpt < PAGES && pd < PAGES
    requires pml4 != KERNEL_PD && pdpt != KERNEL_PD && pd != KERNEL_PD
    modifies mem
    ensures pml4 != pdpt && pml4 != pd && pdpt != pd ==> Tables(mem[..], pml4, pdpt, pd, 7, 4)
    ensures IdentityPD(mem[..], pd, 4)
    ensures pml4 != pdpt && pml4 != pd ==> SinglePointer(mem[..], pml4, pdpt, 7) && EntryAt(mem[..], pml4, 0) == pdpt * 4096 + 7
    ensures forall q :: 0 <= q < mem.Length && !InPage(pml4, q) && !InPage(pdpt, q) && !InPage(pd, q) ==>
              mem[q] == old(mem[q])
  {
    hide IdentityPD;
    ghost var was := mem[..];
    ZeroTables(mem, pml4, pdpt, pd);
    PointerFlags(pdpt);
    PointerFlags(pd);
    mem[pml4 * 512] := Or(pdpt * PAGE_SIZE, 0x7);
    mem[pdpt * 512] := Or(pd * PAGE_SIZE, 0x7);
    SamePD(was, mem[..], KERNEL_PD);
    CopyDirectory(mem, pd);
    if pml4 != pdpt && pml4 != pd {
      assert mem[pml4 * 512] == pdpt * 4096 + 7;
      assert SinglePointer(mem[..], pml4, pdpt, 7);
      if pdpt != pd {
        assert SinglePointer(mem[..], pdpt, pd, 7);
      }
    }
  }

  lemma PointerFlags(page: nat)
    ensures Or(page * PAGE_SIZE, 0x7) == page * 4096 + 7
  {
    assert Pow2(12) == 4096;
    DivModUnique(page * 4096, 4096, page, 0);
    AlignedIsMod(page * 4096, 12);
    OrAligned(page * 4096, 7, 12);
  }

  /** Or-ing the user bit into the user region's entry adds it, whatever the processor has marked. */
  lemma UserFlag(e: nat)
    requires Marked(e, PageEntry(1, 0))
    ensures Or(e, 0x4) == e + 4
  {
    var m := Marks(e, PageEntry(1, 0));
    assert Pow2(2) == 4;
    BitIsDivMod(e, 2);
    DivModUnique(e, 4, 0x8_0020 + 8 * m, 3);
    OrClear(e, 2);
  }
}
