/** The ELF loader and the heap share one physical memory: when a load spares the heap. */
module Loading {
  import opened Machine
  import opened Bytes
  import opened PmmSpec
  import opened BuddyState
  import opened HeapRuns
  import opened BootRuns
  import opened HeapMemory
  import opened Elf

  /** An image whose checks pass and whose program headers lie inside it. */
  ghost predicate Loadable(image: seq<byte>) {
    Accepts(image) && |image| < WORD && TableInside(image, HeaderOf(image))
  }

  /** Loading changes no byte of the heap's pages, whether or not it succeeds. */
  ghost predicate Spares(owned: set<nat>, mem: seq<byte>, image: seq<byte>)
    requires |mem| == MEMORY && Loadable(image)
  {
    var r := LoadFrom(mem, image, HeaderOf(image), 0);
    forall a :: 0 <= a < MEMORY && a / PAGE_SIZE in owned ==> r.mem[a] == mem[a]
  }

  /** An image with one empty segment that covers the whole user region. */
  function WipeImage(): (image: seq<byte>)
    ensures |image| == 120
  {
    [0x7F, 0x45, 0x4C, 0x46, 2, 1, 1, 0, 0, 0, 0, 0, 0, 0, 0, 0]  // magic, 64-bit, little-endian
    + [2, 0, 0x3E, 0, 1, 0, 0, 0, 0, 0, 0x20, 0, 0, 0, 0, 0]  // executable, x86-64, entry 0x200000
    + [64, 0, 0, 0, 0, 0, 0, 0, 0, 0, 0, 0, 0, 0, 0, 0]  // table offset
    + [0, 0, 0, 0, 64, 0, 56, 0, 1, 0, 0, 0, 0, 0, 0, 0]  // entry size 56, one entry
    + [1, 0, 0, 0, 6, 0, 0, 0, 0, 0, 0, 0, 0, 0, 0, 0]  // PT_LOAD, file offset 0
    + [0, 0, 0x20, 0, 0, 0, 0, 0, 0, 0, 0x20, 0, 0, 0, 0, 0]  // at 0x200000
    + [0, 0, 0, 0, 0, 0, 0, 0, 0, 0, 0x20, 0, 0, 0, 0, 0]  // no file bytes, 0x200000 in memory
    + [0, 0x10, 0, 0, 0, 0, 0, 0]
  }

  lemma WipeHeader()
    ensures Loadable(WipeImage()) && HeaderOf(WipeImage()) == Elf.Header(USER_START, 64, 56, 1)
  {
    var image := WipeImage();
    assert image[..4] == [0x7F, 0x45, 0x4C, 0x46];
    assert ReadU32(image, 24) == USER_START && ReadU32(image, 28) == 0;
    assert ReadU32(image, 32) == 64 && ReadU32(image, 36) == 0;
    assert HeaderOf(image) == Elf.Header(USER_START, 64, 56, 1);
  }

  lemma WipeSegment()
    ensures ReadU32(WipeImage(), 64) == PT_LOAD
    ensures SegmentAt(WipeImage(), 64) == Segment(0, USER_START, 0, USER_END - USER_START)
  {
    var image := WipeImage();
    assert ReadU32(image, 72) == 0 && ReadU32(image, 76) == 0;
    assert ReadU32(image, 80) == USER_START && ReadU32(image, 84) == 0;
    assert ReadU32(image, 96) == 0 && ReadU32(image, 100) == 0;
    assert ReadU32(image, 104) == USER_END - USER_START && ReadU32(image, 108) == 0;
  }

  /** Loading it zeroes the user region. */
  lemma WipeLoads(mem: seq<byte>)
    requires |mem| == MEMORY
    ensures Loadable(WipeImage())
    ensures var r := LoadFrom(mem, WipeImage(), HeaderOf(WipeImage()), 0);
            r.ok && forall a :: USER_START <= a < USER_END ==> r.mem[a] == 0
  {
    var image, s := WipeImage(), Segment(0, USER_START, 0, USER_END - USER_START);
    WipeHeader();
    WipeSegment();
    hide WipeImage, HeaderOf, SegmentAt, ReadU32, Loadable, Accepts, Apply;
    forall a | USER_START <= a < USER_END
      ensures Apply(mem, image, s)[a] == 0
    {
      ApplyAt(mem, image, s, a);
    }
    var h := Elf.Header(USER_START, 64, 56, 1);
    assert LoadFrom(Apply(mem, image, s), image, h, 1) == Loaded(true, Apply(mem, image, s));
  }

  /** Memory in which every byte shows that it has been zeroed. */
  ghost function Ones(): (mem: seq<byte>)
    ensures |mem| == MEMORY
  {
    seq(MEMORY, _ => 1)
  }

  lemma WipeHarms(owned: set<nat>, p: nat)
    requires p in owned && 0x240 <= p < 0x400
    ensures Loadable(WipeImage()) && !Spares(owned, Ones(), WipeImage())
  {
    WipeLoads(Ones());
    var a := p * PAGE_SIZE;
    assert a / PAGE_SIZE == p && USER_START <= a < USER_END && Ones()[a] == 1;
    hide WipeImage, Loadable, LoadFrom, HeaderOf;
    var r := LoadFrom(Ones(), WipeImage(), HeaderOf(WipeImage()), 0);
    assert r.mem[a] == 0;
  }

  ghost predicate AllSpare(owned: set<nat>) {
    forall mem, image :: |mem| == MEMORY && Loadable(image) ==> Spares(owned, mem, image)
  }

  /** Every load spares a set of pages apart from the user region's reserved ones exactly when the set
      is apart from the rest of the region too. */
  lemma SparesExactly(owned: set<nat>)
    requires forall p :: p in owned ==> p < PAGES && !(0x200 <= p < 0x240)
    ensures AllSpare(owned) <==> forall p :: p in owned ==> !(0x240 <= p < 0x400)
  {
    hide Spares, Loadable, Ones, WipeImage;
    forall p | p in owned && 0x240 <= p < 0x400
      ensures !AllSpare(owned)
    {
      WipeHarms(owned, p);
    }
    if forall p :: p in owned ==> !(0x240 <= p < 0x400) {
      forall mem: seq<byte>, image: seq<byte> | |mem| == MEMORY && Loadable(image)
        ensures Spares(owned, mem, image)
      {
        LoadSpares(owned, mem, image);
      }
    }
  }

  lemma LoadSpares(owned: set<nat>, mem: seq<byte>, image: seq<byte>)
    requires |mem| == MEMORY && Loadable(image) && forall p :: p in owned ==> !(0x200 <= p < 0x400)
    ensures Spares(owned, mem, image)
  {
    hide Accepts, LoadFrom;
    assert HeaderOf(image).phentsize >= 56 by { AcceptedSize(image); }
    forall a | 0 <= a < MEMORY && a / PAGE_SIZE in owned
      ensures LoadFrom(mem, image, HeaderOf(image), 0).mem[a] == mem[a]
    {
      OutsideUntouched(mem, image, HeaderOf(image), 0, a);
    }
  }

  lemma AcceptedSize(image: seq<byte>)
    requires Accepts(image)
    ensures |image| >= 64 && HeaderOf(image).phentsize >= 56
  {
  }

  /** After any run from boot that gives back none of the region's reserved pages: loading is safe for
      every byte of the heap, headers and free blocks included, exactly when the heap owns no page of
      the rest of the region. */
  lemma LoadSparesHeapExactly(bits: seq<bool>, table: seq<E820Entry>, kernelStart: nat, kernelEnd: nat, ops: seq<Op>)
    requires Booted(bits, table, kernelStart, kernelEnd)
    requires forall i :: 0 <= i < |ops| && ops[i].GiveBack? ==> !(0x200 <= ops[i].page < 0x240)
    ensures Inv(EmptyHeap(bits))
    ensures AllowedRun(EmptyHeap(bits), ops) ==>
              var owned := Run(EmptyHeap(bits), ops).owned;
              (AllSpare(owned) <==> forall p :: p in owned ==> !(0x240 <= p < 0x400))
  {
    var start := EmptyHeap(bits);
    ReservedNeverOwned(bits, table, kernelStart, kernelEnd, [], 0);
    if AllowedRun(start, ops) {
      var owned := Run(start, ops).owned;
      RunsKeepTiling(start, ops);
      forall p | p in owned
        ensures p < PAGES && !(0x200 <= p < 0x240)
      {
        if 0x200 <= p < 0x240 {
          ReservedNeverOwned(bits, table, kernelStart, kernelEnd, ops, p);
        }
      }
      hide AllSpare, Inv, Run;
      SparesExactly(owned);
    }
  }

  /** The heap does come to own such pages: after one request from boot, its live block of 128 pages,
      header and payload, is zeroed by a load. */
  lemma LoadWipesBlock(mem: seq<byte>)
    requires |mem| == MEMORY
    ensures var start := EmptyHeap(BootBits());
            && Inv(start) && AllowedRun(start, [Malloc(USER_SIZE)])
            && Run(start, [Malloc(USER_SIZE)]).live == map[0x280 := 7]
    ensures Loadable(WipeImage())
    ensures var r := LoadFrom(mem, WipeImage(), HeaderOf(WipeImage()), 0);
            r.ok && forall a :: 0x280 * PAGE_SIZE <= a < 0x300 * PAGE_SIZE ==> r.mem[a] == 0
  {
    HeapInUserRegion();
    WipeLoads(mem);
  }
}
