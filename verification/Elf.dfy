/** The static ELF64 loader (System V gABI, chapter 5, Program Header): header checks, then each
    PT_LOAD segment copied and zero-filled into the user region. */
module Elf {
  import opened Machine
  import opened Bytes

  const PT_LOAD: nat := 1

  function ReadU16(s: seq<byte>, at: nat): nat
    requires at + 2 <= |s|
  {
    (s[at] as nat) + 0x100 * (s[at + 1] as nat)
  }

  function ReadU64(s: seq<byte>, at: nat): (r: nat)
    requires at + 8 <= |s|
    ensures r < WORD
  {
    Halves(s, at);
    ReadU32(s, at) + 0x1_0000_0000 * ReadU32(s, at + 4)
  }

  lemma Halves(s: seq<byte>, at: nat)
    requires at + 8 <= |s|
    ensures ReadU32(s, at) < 0x1_0000_0000 && ReadU32(s, at + 4) < 0x1_0000_0000
  {
    ReadU32IsLE(s, at);
    ReadU32IsLE(s, at + 4);
  }

  // ----- Headers -----------------------------------------------------------------

  /** The fields the loader takes from the ELF header. */
  datatype Header = Header(entry: nat, phoff: nat, phentsize: nat, phnum: nat)

  datatype Segment = Segment(offset: nat, vaddr: nat, filesz: nat, memsz: nat)

  function HeaderOf(image: seq<byte>): Header
    requires |image| >= 64
  {
    Header(ReadU64(image, 24), ReadU64(image, 32), ReadU16(image, 54), ReadU16(image, 56))
  }

  /** Magic, 64-bit, little-endian, executable, x86-64. */
  predicate RightKind(image: seq<byte>)
    requires |image| >= 64
  {
    && image[..4] == [0x7F, 0x45, 0x4C, 0x46]
    && image[4] == 2 && image[5] == 1
    && ReadU16(image, 16) == 2 && ReadU16(image, 18) == 0x3E
  }

  /** Where the program header table ends, and what the source's 64-bit sum makes of it. */
  function TableSum(h: Header): nat {
    h.phoff + h.phnum * h.phentsize
  }

  function TableEnd(h: Header): nat {
    TableSum(h) % WORD
  }

  /** Every program header lies inside the image. */
  ghost predicate TableInside(image: seq<byte>, h: Header) {
    forall i :: 0 <= i < h.phnum ==> HeaderAt(h, i) + h.phentsize <= |image|
  }

  function HeaderAt(h: Header, i: nat): nat {
    h.phoff + i * h.phentsize
  }

  /** All the checks made before the first segment. */
  predicate Accepts(image: seq<byte>) {
    && |image| >= 64 && RightKind(image)
    && var h := HeaderOf(image);
    && h.phentsize >= 56
    && TableEnd(h) <= |image|
    && USER_START <= h.entry < USER_END
  }

  /** The hypothesis under which the table check means what it should. */
  predicate TableFits(image: seq<byte>)
    requires |image| >= 64
  {
    TableSum(HeaderOf(image)) < WORD
  }

  lemma MulGrows(i: nat, n: nat, d: nat)
    requires i < n
    ensures i * d + d <= n * d
    ensures i == n - 1 ==> i * d + d == n * d
  {
    var rest: nat := n - 1 - i;
    assert n * d == (i + 1 + rest) * d == i * d + d + rest * d;
    assert rest * d >= 0;
  }

  /** A table that ends inside the image has every header inside. */
  lemma EndsInside(image: seq<byte>, h: Header)
    requires TableSum(h) <= |image|
    ensures TableInside(image, h)
  {
    forall i | 0 <= i < h.phnum
      ensures HeaderAt(h, i) + h.phentsize <= |image|
    {
      MulGrows(i, h.phnum, h.phentsize);
    }
  }

  /** One that ends outside has its last header outside. */
  lemma EndsOutside(image: seq<byte>, h: Header)
    requires TableSum(h) > |image| && h.phnum > 0
    ensures !TableInside(image, h)
  {
    MulGrows(h.phnum - 1, h.phnum, h.phentsize);
    assert HeaderAt(h, h.phnum - 1) + h.phentsize == TableSum(h);
  }

  /** An accepted table lies inside the image exactly when the sum does not wrap (or there is no header). */
  lemma TableCheckExact(image: seq<byte>)
    requires Accepts(image) && |image| < WORD
    ensures TableInside(image, HeaderOf(image)) <==> TableFits(image) || HeaderOf(image).phnum == 0
  {
    hide TableSum, HeaderOf, RightKind, TableInside;
    var h := HeaderOf(image);
    if TableFits(image) {
      EndsInside(image, h);
    } else if h.phnum > 0 {
      EndsOutside(image, h);
    } else {
      NoHeaders(image, h);
    }
  }

  lemma NoHeaders(image: seq<byte>, h: Header)
    requires h.phnum == 0
    ensures TableInside(image, h)
  {
  }

  /** A 64-byte ELF header naming one program header 56 bytes below 2^64. */
  function WrappingImage(): (image: seq<byte>)
    ensures |image| == 64
  {
    [0x7F, 0x45, 0x4C, 0x46, 2, 1, 1, 0, 0, 0, 0, 0, 0, 0, 0, 0]  // magic, 64-bit, little-endian
    + [2, 0, 0x3E, 0, 1, 0, 0, 0, 0, 0, 0x20, 0, 0, 0, 0, 0]  // executable, x86-64, entry 0x200000
    + [0xC8, 0xFF, 0xFF, 0xFF, 0xFF, 0xFF, 0xFF, 0xFF, 0, 0, 0, 0, 0, 0, 0, 0]  // table offset
    + [0, 0, 0, 0, 64, 0, 56, 0, 1, 0, 0, 0, 0, 0, 0, 0]  // entry size 56, one entry
  }

  /** The check is passed by an image whose table lies outside it. */
  lemma TableCheckWraps()
    ensures Accepts(WrappingImage()) && !TableInside(WrappingImage(), HeaderOf(WrappingImage()))
  {
    var image := WrappingImage();
    assert image[..4] == [0x7F, 0x45, 0x4C, 0x46];
    assert ReadU32(image, 36) == 0xFFFF_FFFF && ReadU32(image, 32) == 0xFFFF_FFC8;
    assert ReadU32(image, 28) == 0 && ReadU32(image, 24) == USER_START;
    var h := HeaderOf(image);
    assert h == Header(USER_START, WORD - 56, 56, 1);
    assert HeaderAt(h, 0) + h.phentsize > |image|;
  }

  /** Program header i, when its first 48 bytes are there. */
  function SegmentAt(image: seq<byte>, at: nat): (s: Segment)
    requires at + 56 <= |image|
  {
    Segment(ReadU64(image, at + 8), ReadU64(image, at + 16), ReadU64(image, at + 32), ReadU64(image, at + 40))
  }

  /** A segment the loader is willing to place, as the source tests it, free of wrapping sums. */
  predicate Placeable(s: Segment, size: nat) {
    && USER_START <= s.vaddr < USER_END
    && s.memsz <= USER_END - s.vaddr
    && s.filesz <= s.memsz
    && s.offset <= size && s.filesz <= size - s.offset
  }

  // ----- Meaning -------------------------------------------------------------------

  /** Memory after a segment: its file bytes, then zeros up to its memory size. */
  function Apply(mem: seq<byte>, image: seq<byte>, s: Segment): (r: seq<byte>)
    requires |mem| >= USER_END && Placeable(s, |image|)
    ensures |r| == |mem|
  {
    mem[..s.vaddr] + image[s.offset..s.offset + s.filesz] + Zeros(s.memsz - s.filesz) + mem[s.vaddr + s.memsz..]
  }

  datatype Loaded = Loaded(ok: bool, mem: seq<byte>)

  /** Program headers from i on, in table order: the first bad segment stops the load. */
  function LoadFrom(mem: seq<byte>, image: seq<byte>, h: Header, i: nat): (r: Loaded)
    requires |mem| >= USER_END && h.phentsize >= 56 && i <= h.phnum
    requires forall k :: 0 <= k < h.phnum ==> HeaderAt(h, k) + h.phentsize <= |image|
    ensures |r.mem| == |mem|
    decreases h.phnum - i
  {
    if i == h.phnum then Loaded(true, mem)
    else
      var at := HeaderAt(h, i);
      if ReadU32(image, at) != PT_LOAD then LoadFrom(mem, image, h, i + 1)
      else
        var s := SegmentAt(image, at);
        if Placeable(s, |image|) then LoadFrom(Apply(mem, image, s), image, h, i + 1)
        else Loaded(false, mem)
  }

  /** Header i is a segment covering address a. */
  ghost predicate Covers(image: seq<byte>, h: Header, i: nat, a: nat)
    requires h.phentsize >= 56 && i < h.phnum && TableInside(image, h)
  {
    var at := HeaderAt(h, i);
    ReadU32(image, at) == PT_LOAD
    && SegmentAt(image, at).vaddr <= a < SegmentAt(image, at).vaddr + SegmentAt(image, at).memsz
  }

  /** The byte a covering segment puts at address a. */
  ghost function ByteFrom(image: seq<byte>, s: Segment, a: nat): byte
    requires Placeable(s, |image|) && s.vaddr <= a < s.vaddr + s.memsz
  {
    if a < s.vaddr + s.filesz then image[s.offset + (a - s.vaddr)] else 0
  }

  lemma ApplyAt(mem: seq<byte>, image: seq<byte>, s: Segment, a: nat)
    requires |mem| >= USER_END && Placeable(s, |image|) && a < |mem|
    ensures Apply(mem, image, s)[a] == if s.vaddr <= a < s.vaddr + s.memsz then ByteFrom(image, s, a) else mem[a]
  {
  }

  /** Headers from i on that are reached and placeable. */
  ghost predicate AllPlaceable(image: seq<byte>, h: Header, i: nat)
    requires h.phentsize >= 56 && TableInside(image, h)
  {
    forall k :: i <= k < h.phnum && ReadU32(image, HeaderAt(h, k)) == PT_LOAD ==>
                  Placeable(SegmentAt(image, HeaderAt(h, k)), |image|)
  }

  /** The load succeeds exactly when every PT_LOAD is placeable. */
  lemma {:induction false} SucceedsExactly(mem: seq<byte>, image: seq<byte>, h: Header, i: nat)
    requires |mem| >= USER_END && h.phentsize >= 56 && i <= h.phnum && TableInside(image, h)
    ensures LoadFrom(mem, image, h, i).ok <==> AllPlaceable(image, h, i)
    decreases h.phnum - i
  {
    hide ReadU32, SegmentAt;
    if i < h.phnum {
      var at := HeaderAt(h, i);
      if ReadU32(image, at) != PT_LOAD {
        SucceedsExactly(mem, image, h, i + 1);
      } else if Placeable(SegmentAt(image, at), |image|) {
        SucceedsExactly(Apply(mem, image, SegmentAt(image, at)), image, h, i + 1);
      }
    }
  }

  /** One PT_LOAD step at one address. */
  lemma StepAt(mem: seq<byte>, image: seq<byte>, h: Header, i: nat, a: nat)
    requires |mem| >= USER_END && h.phentsize >= 56 && i < h.phnum && TableInside(image, h)
    requires AllPlaceable(image, h, i) && a < |mem|
    ensures var at := HeaderAt(h, i);
            var r := LoadFrom(mem, image, h, i);
            if ReadU32(image, at) != PT_LOAD then !Covers(image, h, i, a) && r == LoadFrom(mem, image, h, i + 1)
            else
              var s := SegmentAt(image, at);
              && Placeable(s, |image|) && r == LoadFrom(Apply(mem, image, s), image, h, i + 1)
              && Apply(mem, image, s)[a] == if Covers(image, h, i, a) then ByteFrom(image, s, a) else mem[a]
  {
    hide ReadU32, ReadU64, Apply;
    var at := HeaderAt(h, i);
    if ReadU32(image, at) == PT_LOAD {
      ApplyAt(mem, image, SegmentAt(image, at), a);
    }
  }

  /** A byte no segment covers is the initial byte. */
  lemma {:induction false} NoWriter(mem: seq<byte>, image: seq<byte>, h: Header, i: nat, a: nat)
    requires |mem| >= USER_END && h.phentsize >= 56 && i <= h.phnum && TableInside(image, h)
    requires AllPlaceable(image, h, i) && a < |mem|
    requires forall k :: i <= k < h.phnum ==> !Covers(image, h, k, a)
    ensures LoadFrom(mem, image, h, i).mem[a] == mem[a]
    decreases h.phnum - i
  {
    if i < h.phnum {
      hide ReadU32, ReadU64, Apply, LoadFrom, ByteFrom, Placeable;
      StepAt(mem, image, h, i, a);
      var at := HeaderAt(h, i);
      NoWriter(if ReadU32(image, at) != PT_LOAD then mem else Apply(mem, image, SegmentAt(image, at)), image, h, i + 1, a);
    }
  }

  /** Declarative meaning of a successful load: each byte comes from the last segment that covers it. */
  lemma {:induction false} LastWriterWins(mem: seq<byte>, image: seq<byte>, h: Header, i: nat, a: nat, k: nat)
    requires |mem| >= USER_END && h.phentsize >= 56 && i <= k < h.phnum && TableInside(image, h)
    requires AllPlaceable(image, h, i) && a < |mem|
    requires Covers(image, h, k, a) && forall l :: k < l < h.phnum ==> !Covers(image, h, l, a)
    ensures Placeable(SegmentAt(image, HeaderAt(h, k)), |image|)
    ensures LoadFrom(mem, image, h, i).mem[a] == ByteFrom(image, SegmentAt(image, HeaderAt(h, k)), a)
    decreases h.phnum - i
  {
    hide ReadU32, ReadU64, Apply, LoadFrom, ByteFrom, Placeable;
    StepAt(mem, image, h, i, a);
    var at := HeaderAt(h, i);
    var next := if ReadU32(image, at) != PT_LOAD then mem else Apply(mem, image, SegmentAt(image, at));
    if i == k {
      NoWriter(next, image, h, i + 1, a);
    } else {
      LastWriterWins(next, image, h, i + 1, a, k);
    }
  }

  /** Success or failure, no byte outside the user region changes. */
  lemma {:induction false} OutsideUntouched(mem: seq<byte>, image: seq<byte>, h: Header, i: nat, a: nat)
    requires |mem| >= USER_END && h.phentsize >= 56 && i <= h.phnum && TableInside(image, h)
    requires a < |mem| && !(USER_START <= a < USER_END)
    ensures LoadFrom(mem, image, h, i).mem[a] == mem[a]
    decreases h.phnum - i
  {
    hide ReadU32, SegmentAt, Apply;
    if i < h.phnum {
      var at := HeaderAt(h, i);
      if ReadU32(image, at) != PT_LOAD {
        OutsideUntouched(mem, image, h, i + 1, a);
      } else if Placeable(SegmentAt(image, at), |image|) {
        var s := SegmentAt(image, at);
        ApplyAt(mem, image, s, a);
        OutsideUntouched(Apply(mem, image, s), image, h, i + 1, a);
      }
    }
  }

  // ----- The bytes of the image ----------------------------------------------------

  /** The fields of the ELF header and of program header i, by their offsets in the file. */
  ghost function EntryPoint(image: seq<byte>): nat
    requires |image| >= 64
  {
    Word(image, 24, 8)
  }

  ghost function PhdrCount(image: seq<byte>): nat
    requires |image| >= 64
  {
    Word(image, 56, 2)
  }

  ghost function PhdrAt(image: seq<byte>, i: nat): nat
    requires |image| >= 64
  {
    Word(image, 32, 8) + i * Word(image, 54, 2)
  }

  ghost predicate PhdrInside(image: seq<byte>, i: nat) {
    |image| >= 64 && PhdrAt(image, i) + 56 <= |image|
  }

  ghost function PType(image: seq<byte>, i: nat): nat
    requires PhdrInside(image, i)
  {
    Word(image, PhdrAt(image, i), 4)
  }

  ghost function POffset(image: seq<byte>, i: nat): nat
    requires PhdrInside(image, i)
  {
    Word(image, PhdrAt(image, i) + 8, 8)
  }

  ghost function PVaddr(image: seq<byte>, i: nat): nat
    requires PhdrInside(image, i)
  {
    Word(image, PhdrAt(image, i) + 16, 8)
  }

  ghost function PFilesz(image: seq<byte>, i: nat): nat
    requires PhdrInside(image, i)
  {
    Word(image, PhdrAt(image, i) + 32, 8)
  }

  ghost function PMemsz(image: seq<byte>, i: nat): nat
    requires PhdrInside(image, i)
  {
    Word(image, PhdrAt(image, i) + 40, 8)
  }

  /** Parts one after the other, and where part k starts. */
  ghost function Joined(parts: seq<seq<byte>>): seq<byte> {
    if parts == [] then [] else parts[0] + Joined(parts[1..])
  }

  ghost function Start(parts: seq<seq<byte>>, k: nat): nat
    requires k <= |parts|
  {
    if k == 0 then 0 else Start(parts, k - 1) + |parts[k - 1]|
  }

  lemma {:induction false} StartShift(parts: seq<seq<byte>>, k: nat)
    requires k < |parts|
    ensures Start(parts, k + 1) == |parts[0]| + Start(parts[1..], k)
  {
    if k > 0 {
      StartShift(parts, k - 1);
    }
  }

  /** Part k, cut out of a stretch that holds the parts. */
  lemma {:induction false} PartAt(s: seq<byte>, at: nat, parts: seq<seq<byte>>, k: nat)
    requires at + |Joined(parts)| <= |s| && s[at..at + |Joined(parts)|] == Joined(parts) && k < |parts|
    ensures at + Start(parts, k) + |parts[k]| <= |s|
    ensures s[at + Start(parts, k)..at + Start(parts, k) + |parts[k]|] == parts[k]
    decreases k
  {
    var first, rest := parts[0], Joined(parts[1..]);
    var w := s[at..at + |first| + |rest|];
    assert w == first + rest;
    if k == 0 {
      assert s[at..at + |first|] == w[..|first|];
    } else {
      assert s[at + |first|..at + |first| + |rest|] == w[|first|..];
      PartAt(s, at + |first|, parts[1..], k - 1);
      StartShift(parts, k - 1);
    }
  }

  /** Part k is a word. */
  lemma WordAt(s: seq<byte>, at: nat, parts: seq<seq<byte>>, k: nat, start: nat, x: nat, n: nat)
    requires at + |Joined(parts)| <= |s| && s[at..at + |Joined(parts)|] == Joined(parts) && k < |parts|
    requires Start(parts, k) == start && parts[k] == ToLE(x, n) && x < Pow256(n)
    ensures at + start + n <= |s| && Word(s, at + start, n) == x
  {
    PartAt(s, at, parts, k);
    WordOfLE(s, at + start, n, x);
  }

  /** An ELF header written out field by field. */
  ghost function Ehdr(ident: seq<byte>, kind: nat, machine: nat, version: nat, entry: nat, phoff: nat, shoff: nat,
                      flags: nat, ehsize: nat, phentsize: nat, phnum: nat, rest: seq<byte>): seq<seq<byte>> {
    [ident, ToLE(kind, 2), ToLE(machine, 2), ToLE(version, 4), ToLE(entry, 8), ToLE(phoff, 8), ToLE(shoff, 8),
     ToLE(flags, 4), ToLE(ehsize, 2), ToLE(phentsize, 2), ToLE(phnum, 2), rest]
  }

  /** It has the fields the loader is told about. */
  lemma EhdrLaidOut(image: seq<byte>, ident: seq<byte>, kind: nat, machine: nat, version: nat, entry: nat, phoff: nat,
                    shoff: nat, flags: nat, ehsize: nat, phentsize: nat, phnum: nat, rest: seq<byte>)
    requires |ident| == 16 && |image| >= 64 && kind < 0x1_0000 && machine < 0x1_0000
    requires entry < WORD && phoff < WORD && phentsize < 0x1_0000 && phnum < 0x1_0000
    requires var header := Joined(Ehdr(ident, kind, machine, version, entry, phoff, shoff, flags, ehsize, phentsize, phnum, rest));
             |header| <= |image| && image[0..|header|] == header
    ensures image[0..16] == ident && Word(image, 16, 2) == kind && Word(image, 18, 2) == machine
    ensures EntryPoint(image) == entry && PhdrCount(image) == phnum && Word(image, 54, 2) == phentsize
    ensures forall i: nat :: PhdrAt(image, i) == phoff + i * phentsize
  {
    Powers();
    var parts := Ehdr(ident, kind, machine, version, entry, phoff, shoff, flags, ehsize, phentsize, phnum, rest);
    assert Start(parts, 1) == 16 && Start(parts, 2) == 18 && Start(parts, 3) == 20;
    assert Start(parts, 4) == 24 && Start(parts, 5) == 32 && Start(parts, 6) == 40;
    assert Start(parts, 7) == 48 && Start(parts, 8) == 52 && Start(parts, 9) == 54 && Start(parts, 10) == 56;
    hide ToLE, FromLE, Pow256, Joined, Start, Word;
    PartAt(image, 0, parts, 0);
    assert Start(parts, 0) == 0 by { StartZero(parts); }
    WordAt(image, 0, parts, 1, 16, kind, 2);
    WordAt(image, 0, parts, 2, 18, machine, 2);
    WordAt(image, 0, parts, 4, 24, entry, 8);
    WordAt(image, 0, parts, 5, 32, phoff, 8);
    WordAt(image, 0, parts, 9, 54, phentsize, 2);
    WordAt(image, 0, parts, 10, 56, phnum, 2);
  }

  lemma StartZero(parts: seq<seq<byte>>)
    ensures Start(parts, 0) == 0
  {
  }

  lemma Powers()
    ensures Pow256(2) == 0x1_0000 && Pow256(4) == UINT32 && Pow256(8) == WORD
  {
    assert Pow256(4) == UINT32;
  }

  /** A program header written out field by field. */
  ghost function Phdr(kind: nat, flags: nat, offset: nat, vaddr: nat, paddr: nat, filesz: nat, memsz: nat,
                      align: nat): seq<seq<byte>> {
    [ToLE(kind, 4), ToLE(flags, 4), ToLE(offset, 8), ToLE(vaddr, 8), ToLE(paddr, 8), ToLE(filesz, 8), ToLE(memsz, 8),
     ToLE(align, 8)]
  }

  lemma PhdrLaidOut(image: seq<byte>, i: nat, kind: nat, flags: nat, offset: nat, vaddr: nat, paddr: nat, filesz: nat,
                    memsz: nat, align: nat)
    requires PhdrInside(image, i) && kind < UINT32
    requires offset < WORD && vaddr < WORD && filesz < WORD && memsz < WORD
    requires var header := Joined(Phdr(kind, flags, offset, vaddr, paddr, filesz, memsz, align));
             var at := PhdrAt(image, i);
             at + |header| <= |image| && image[at..at + |header|] == header
    ensures PType(image, i) == kind && POffset(image, i) == offset && PVaddr(image, i) == vaddr
    ensures PFilesz(image, i) == filesz && PMemsz(image, i) == memsz
  {
    Powers();
    var at := PhdrAt(image, i);
    var parts := Phdr(kind, flags, offset, vaddr, paddr, filesz, memsz, align);
    StartZero(parts);
    assert Start(parts, 1) == 4 && Start(parts, 2) == 8 && Start(parts, 3) == 16;
    assert Start(parts, 4) == 24 && Start(parts, 5) == 32 && Start(parts, 6) == 40;
    hide ToLE, FromLE, Pow256, Joined, Start, Word, PhdrAt;
    WordAt(image, at, parts, 0, 0, kind, 4);
    WordAt(image, at, parts, 2, 8, offset, 8);
    WordAt(image, at, parts, 3, 16, vaddr, 8);
    WordAt(image, at, parts, 5, 32, filesz, 8);
    WordAt(image, at, parts, 6, 40, memsz, 8);
  }

  /** The readers read little-endian words. */
  lemma ReadersAreWords(s: seq<byte>, at: nat)
    ensures at + 2 <= |s| ==> ReadU16(s, at) == Word(s, at, 2)
    ensures at + 4 <= |s| ==> ReadU32(s, at) == Word(s, at, 4)
    ensures at + 8 <= |s| ==> ReadU64(s, at) == Word(s, at, 8)
  {
    if at + 2 <= |s| {
      var w := s[at..at + 2];
      assert FromLE(w[1..]) == w[1] + 256 * FromLE([]) && w[1..][1..] == [];
    }
    if at + 4 <= |s| {
      ReadU32IsLE(s, at);
    }
    if at + 8 <= |s| {
      ReadU32IsLE(s, at + 4);
      FromLEConcat(s[at..at + 4], s[at + 4..at + 8]);
      assert s[at..at + 8] == s[at..at + 4] + s[at + 4..at + 8];
      assert Pow256(4) == UINT32;
    }
  }

  /** The loader's view of the headers is theirs. */
  lemma HeadersRead(image: seq<byte>)
    requires |image| >= 64
    ensures var h := HeaderOf(image);
            && h.entry == EntryPoint(image) && h.phnum == PhdrCount(image) && h.phentsize == Word(image, 54, 2)
            && (forall i: nat :: HeaderAt(h, i) == PhdrAt(image, i))
    ensures RightKind(image) <==> image[..6] == [0x7F, 0x45, 0x4C, 0x46, 2, 1]
                                  && Word(image, 16, 2) == 2 && Word(image, 18, 2) == 0x3E
  {
    FieldsRead(image);
    KindRead(image);
    hide HeaderOf, Word, EntryPoint, PhdrCount, RightKind;
  }

  lemma FieldsRead(image: seq<byte>)
    requires |image| >= 64
    ensures HeaderOf(image) == Header(EntryPoint(image), Word(image, 32, 8), Word(image, 54, 2), PhdrCount(image))
  {
    ReadersAreWords(image, 24);
    ReadersAreWords(image, 32);
    ReadersAreWords(image, 54);
    ReadersAreWords(image, 56);
    hide ReadU16, ReadU64, Word;
  }

  lemma KindRead(image: seq<byte>)
    requires |image| >= 64
    ensures RightKind(image) <==> image[..6] == [0x7F, 0x45, 0x4C, 0x46, 2, 1]
                                  && Word(image, 16, 2) == 2 && Word(image, 18, 2) == 0x3E
  {
    ReadersAreWords(image, 16);
    ReadersAreWords(image, 18);
    hide ReadU16, Word;
    assert image[..6] == image[..4] + [image[4], image[5]];
  }

  lemma SegmentRead(image: seq<byte>, i: nat)
    requires PhdrInside(image, i)
    ensures var at := PhdrAt(image, i);
            && ReadU32(image, at) == PType(image, i)
            && SegmentAt(image, at) == Segment(POffset(image, i), PVaddr(image, i), PFilesz(image, i), PMemsz(image, i))
  {
    var at := PhdrAt(image, i);
    ReadersAreWords(image, at);
    ReadersAreWords(image, at + 8);
    ReadersAreWords(image, at + 16);
    ReadersAreWords(image, at + 32);
    ReadersAreWords(image, at + 40);
    hide ReadU32, ReadU64, Word, PhdrAt;
  }

  /** The checks before the first segment, over the bytes of the image. */
  lemma AcceptsExactly(image: seq<byte>)
    requires |image| < WORD && (|image| >= 64 ==> TableFits(image))
    ensures Accepts(image) <==>
              && |image| >= 64 && image[..6] == [0x7F, 0x45, 0x4C, 0x46, 2, 1]
              && Word(image, 16, 2) == 2 && Word(image, 18, 2) == 0x3E && Word(image, 54, 2) >= 56
              && PhdrAt(image, PhdrCount(image)) <= |image| && 0x20_0000 <= EntryPoint(image) < 0x40_0000
  {
    if |image| >= 64 {
      HeadersRead(image);
      TableSumRead(image);
      WrappedSum(TableSum(HeaderOf(image)));
      assert TableEnd(HeaderOf(image)) == TableSum(HeaderOf(image));
      hide HeaderOf, RightKind, PhdrAt, Word, EntryPoint, PhdrCount, TableSum, TableEnd, TableFits, HeaderAt;
    }
  }

  lemma TableSumRead(image: seq<byte>)
    requires |image| >= 64
    ensures TableSum(HeaderOf(image)) == PhdrAt(image, PhdrCount(image))
  {
    HeadersRead(image);
    var h := HeaderOf(image);
    assert HeaderAt(h, h.phnum) == PhdrAt(image, PhdrCount(image));
  }

  /** Header i puts a byte at address a. */
  ghost predicate Claims(image: seq<byte>, i: nat, a: nat)
    requires PhdrInside(image, i)
  {
    PType(image, i) == 1 && PVaddr(image, i) <= a < PVaddr(image, i) + PMemsz(image, i)
  }

  /** Header i asks for a range of the user region and for file bytes the image has, no more than fit. */
  ghost predicate GoodSegment(image: seq<byte>, i: nat)
    requires PhdrInside(image, i)
  {
    && 0x20_0000 <= PVaddr(image, i) < 0x40_0000 && PVaddr(image, i) + PMemsz(image, i) <= 0x40_0000
    && PFilesz(image, i) <= PMemsz(image, i) && POffset(image, i) + PFilesz(image, i) <= |image|
  }

  /** The byte header i puts at address a: its file bytes, then zeros. */
  ghost function Given(image: seq<byte>, i: nat, a: nat): byte
    requires PhdrInside(image, i) && GoodSegment(image, i) && Claims(image, i, a)
  {
    if a - PVaddr(image, i) < PFilesz(image, i) then image[POffset(image, i) + (a - PVaddr(image, i))] else 0
  }

  /** What a PT_LOAD header written out field by field gives: file bytes from its offset, then zeros. */
  lemma GivenAsLaidOut(image: seq<byte>, i: nat, flags: nat, offset: nat, vaddr: nat, paddr: nat, filesz: nat,
                       memsz: nat, align: nat, j: nat)
    requires PhdrInside(image, i) && GoodSegment(image, i) && j < memsz
    requires offset < WORD && vaddr < WORD && filesz < WORD && memsz < WORD
    requires var header := Joined(Phdr(1, flags, offset, vaddr, paddr, filesz, memsz, align));
             var at := PhdrAt(image, i);
             at + |header| <= |image| && image[at..at + |header|] == header
    ensures Claims(image, i, vaddr + j) && (j < filesz ==> offset + j < |image|)
    ensures Given(image, i, vaddr + j) == if j < filesz then image[offset + j] else 0
  {
    PhdrLaidOut(image, i, 1, flags, offset, vaddr, paddr, filesz, memsz, align);
    hide PType, POffset, PVaddr, PFilesz, PMemsz, PhdrAt, Joined;
  }

  lemma PlaceableMeans(image: seq<byte>, i: nat)
    requires PhdrInside(image, i)
    ensures ReadU32(image, PhdrAt(image, i)) == PT_LOAD <==> PType(image, i) == 1
    ensures Placeable(SegmentAt(image, PhdrAt(image, i)), |image|) <==> GoodSegment(image, i)
  {
    SegmentRead(image, i);
    hide SegmentAt, ReadU32, PhdrAt, PType, POffset, PVaddr, PFilesz, PMemsz;
  }

  lemma ByteMeans(image: seq<byte>, i: nat, a: nat)
    requires PhdrInside(image, i) && GoodSegment(image, i) && Claims(image, i, a)
    ensures var s := SegmentAt(image, PhdrAt(image, i));
            Placeable(s, |image|) && s.vaddr <= a < s.vaddr + s.memsz && ByteFrom(image, s, a) == Given(image, i, a)
  {
    SegmentRead(image, i);
    hide SegmentAt, ReadU32, PhdrAt, PType, POffset, PVaddr, PFilesz, PMemsz;
  }

  lemma CoversMeans(image: seq<byte>, i: nat, a: nat)
    requires Accepts(image) && TableInside(image, HeaderOf(image)) && i < HeaderOf(image).phnum
    ensures PhdrInside(image, i) && HeaderOf(image).phentsize >= 56
    ensures Covers(image, HeaderOf(image), i, a) <==> Claims(image, i, a)
  {
    HeaderInside(image, i);
    SegmentRead(image, i);
    hide Accepts, HeaderOf, SegmentAt, ReadU32, PhdrAt, HeaderAt, PType, POffset, PVaddr, PFilesz, PMemsz;
  }

  lemma HeaderInside(image: seq<byte>, i: nat)
    requires Accepts(image) && TableInside(image, HeaderOf(image)) && i < HeaderOf(image).phnum
    ensures HeaderOf(image).phentsize >= 56
    ensures PhdrInside(image, i) && HeaderAt(HeaderOf(image), i) == PhdrAt(image, i)
  {
    HeadersRead(image);
    assert HeaderOf(image).phentsize >= 56;
    hide Accepts, HeaderOf, PhdrAt, HeaderAt, RightKind;
  }

  lemma HeadersMean(image: seq<byte>)
    requires Accepts(image) && TableInside(image, HeaderOf(image))
    ensures HeaderOf(image).phnum == PhdrCount(image) && HeaderOf(image).phentsize >= 56
    ensures forall i :: 0 <= i < PhdrCount(image) ==> PhdrInside(image, i)
    ensures forall i :: 0 <= i < PhdrCount(image) ==>
              && HeaderAt(HeaderOf(image), i) == PhdrAt(image, i)
              && (ReadU32(image, PhdrAt(image, i)) == PT_LOAD <==> PType(image, i) == 1)
              && (Placeable(SegmentAt(image, PhdrAt(image, i)), |image|) <==> GoodSegment(image, i))
    ensures forall i, a :: 0 <= i < PhdrCount(image) ==> (Covers(image, HeaderOf(image), i, a) <==> Claims(image, i, a))
  {
    HeadersRead(image);
    var h := HeaderOf(image);
    assert h.phentsize >= 56;
    hide HeaderOf, PhdrAt, ReadU32, SegmentAt, RightKind, Placeable, GoodSegment, Claims, Covers, PType, HeaderAt;
    forall i | 0 <= i < PhdrCount(image)
      ensures PhdrInside(image, i)
      ensures HeaderAt(h, i) == PhdrAt(image, i)
      ensures ReadU32(image, PhdrAt(image, i)) == PT_LOAD <==> PType(image, i) == 1
      ensures Placeable(SegmentAt(image, PhdrAt(image, i)), |image|) <==> GoodSegment(image, i)
    {
      HeaderInside(image, i);
      PlaceableMeans(image, i);
    }
    forall i, a | 0 <= i < PhdrCount(image)
      ensures Covers(image, h, i, a) <==> Claims(image, i, a)
    {
      CoversMeans(image, i, a);
    }
  }

  /** The load succeeds exactly when every PT_LOAD header asks for something it may have. */
  lemma LoadsExactly(mem: seq<byte>, image: seq<byte>)
    requires |mem| >= USER_END && Accepts(image) && TableInside(image, HeaderOf(image))
    ensures HeaderOf(image).phentsize >= 56
    ensures forall i :: 0 <= i < PhdrCount(image) ==> PhdrInside(image, i)
    ensures LoadFrom(mem, image, HeaderOf(image), 0).ok
            <==> forall i :: 0 <= i < PhdrCount(image) && PType(image, i) == 1 ==> GoodSegment(image, i)
  {
    HeadersMean(image);
    hide Accepts, HeaderOf, PhdrAt, ReadU32, SegmentAt, Placeable, GoodSegment, PType, LoadFrom, Covers, Claims;
    SucceedsExactly(mem, image, HeaderOf(image), 0);
  }

  /** All program headers lie in the image. */
  ghost predicate AllInside(image: seq<byte>) {
    |image| >= 64 && forall i :: 0 <= i < PhdrCount(image) ==> PhdrInside(image, i)
  }

  /** Header i claims address a, and no later header does. */
  ghost predicate LastToClaim(image: seq<byte>, i: nat, a: nat)
    requires AllInside(image)
  {
    i < PhdrCount(image) && Claims(image, i, a) && forall l :: i < l < PhdrCount(image) ==> !Claims(image, l, a)
  }

  ghost predicate NoneClaims(image: seq<byte>, a: nat)
    requires AllInside(image)
  {
    forall i :: 0 <= i < PhdrCount(image) ==> !Claims(image, i, a)
  }

  /** After a successful load, a byte claimed by header i and by no later one is what header i gives. */
  lemma LastClaim(mem: seq<byte>, image: seq<byte>, i: nat, a: nat)
    requires |mem| >= USER_END && Accepts(image) && TableInside(image, HeaderOf(image)) && HeaderOf(image).phentsize >= 56
    requires LoadFrom(mem, image, HeaderOf(image), 0).ok && AllInside(image) && LastToClaim(image, i, a)
    ensures GoodSegment(image, i) && a < USER_END
    ensures LoadFrom(mem, image, HeaderOf(image), 0).mem[a] == Given(image, i, a)
  {
    HeadersMean(image);
    LoadsExactly(mem, image);
    ByteMeans(image, i, a);
    hide Accepts, HeaderOf, PhdrAt, ReadU32, SegmentAt, Placeable, LoadFrom, Covers;
    SucceedsExactly(mem, image, HeaderOf(image), 0);
    LastWriterWins(mem, image, HeaderOf(image), 0, a, i);
  }

  /** A byte no header claims is as it was. */
  lemma Unclaimed(mem: seq<byte>, image: seq<byte>, a: nat)
    requires |mem| >= USER_END && Accepts(image) && TableInside(image, HeaderOf(image)) && HeaderOf(image).phentsize >= 56
    requires LoadFrom(mem, image, HeaderOf(image), 0).ok && a < |mem| && AllInside(image) && NoneClaims(image, a)
    ensures LoadFrom(mem, image, HeaderOf(image), 0).mem[a] == mem[a]
  {
    HeadersMean(image);
    hide Accepts, HeaderOf, PhdrAt, ReadU32, SegmentAt, Placeable, LoadFrom, Covers, Claims;
    SucceedsExactly(mem, image, HeaderOf(image), 0);
    NoWriter(mem, image, HeaderOf(image), 0, a);
  }

  /** A load, byte by byte. */
  lemma LoadMeans(mem: seq<byte>, image: seq<byte>)
    requires |mem| >= USER_END && Accepts(image) && TableInside(image, HeaderOf(image)) && HeaderOf(image).phentsize >= 56
    ensures HeaderOf(image).entry == EntryPoint(image) && AllInside(image)
    ensures LoadFrom(mem, image, HeaderOf(image), 0).ok
            <==> forall i :: 0 <= i < PhdrCount(image) && PType(image, i) == 1 ==> GoodSegment(image, i)
    ensures LoadFrom(mem, image, HeaderOf(image), 0).ok ==>
              forall i: nat, a: nat :: LastToClaim(image, i, a) ==>
                GoodSegment(image, i) && a < |mem| && LoadFrom(mem, image, HeaderOf(image), 0).mem[a] == Given(image, i, a)
    ensures LoadFrom(mem, image, HeaderOf(image), 0).ok ==>
              forall a: nat :: a < |mem| && NoneClaims(image, a) ==> LoadFrom(mem, image, HeaderOf(image), 0).mem[a] == mem[a]
    ensures forall a :: 0 <= a < |mem| && !(0x20_0000 <= a < 0x40_0000) ==>
                          LoadFrom(mem, image, HeaderOf(image), 0).mem[a] == mem[a]
  {
    HeadersRead(image);
    LoadsExactly(mem, image);
    assert AllInside(image);
    hide Accepts, HeaderOf, PhdrAt, ReadU32, SegmentAt, Placeable, LoadFrom, RightKind, PType, Given, GoodSegment, AllInside, NoneClaims;
    var r := LoadFrom(mem, image, HeaderOf(image), 0);
    if r.ok {
      forall i: nat, a: nat | LastToClaim(image, i, a)
        ensures GoodSegment(image, i) && a < |mem| && r.mem[a] == Given(image, i, a)
      {
        LastClaim(mem, image, i, a);
      }
      forall a: nat | a < |mem| && NoneClaims(image, a)
        ensures r.mem[a] == mem[a]
      {
        Unclaimed(mem, image, a);
      }
    }
    forall a | 0 <= a < |mem| && !(0x20_0000 <= a < 0x40_0000)
      ensures r.mem[a] == mem[a]
    {
      OutsideUntouched(mem, image, HeaderOf(image), 0, a);
    }
  }

  // ----- The loader ------------------------------------------------------------------

  /** Loads image into memory; mem[a] is the byte at physical address a. The image buffer is a value:
      it does not overlap the region written. Every read of it is inside its bounds. The load succeeds
      exactly when the ELF header and every PT_LOAD header say what they should, and then each byte
      is what the last header that claims it gives, or what it was. */
  method Load(image: seq<byte>, mem: array<byte>) returns (rc: int, entry: nat)
    requires mem.Length >= USER_END && |image| < WORD
    requires |image| >= 64 ==> TableFits(image)
    modifies mem
    ensures rc == 0 || rc == -1
    ensures !Accepts(image) ==> rc == -1 && mem[..] == old(mem[..])
    ensures Accepts(image) ==>
              && TableInside(image, HeaderOf(image)) && HeaderOf(image).phentsize >= 56
              && var r := LoadFrom(old(mem[..]), image, HeaderOf(image), 0);
              && mem[..] == r.mem && (rc == 0 <==> r.ok)
    ensures rc == 0 ==> Accepts(image) && entry == HeaderOf(image).entry && USER_START <= entry < USER_END
    ensures rc == 0 <==>
              && |image| >= 64 && image[..6] == [0x7F, 0x45, 0x4C, 0x46, 2, 1]
              && Word(image, 16, 2) == 2 && Word(image, 18, 2) == 0x3E && Word(image, 54, 2) >= 56
              && PhdrAt(image, PhdrCount(image)) <= |image| && 0x20_0000 <= EntryPoint(image) < 0x40_0000
              && forall i :: 0 <= i < PhdrCount(image) && PhdrInside(image, i) && PType(image, i) == 1 ==>
                               GoodSegment(image, i)
    ensures rc == 0 ==> entry == EntryPoint(image) && AllInside(image)
    ensures rc == 0 ==>
              forall i: nat, a: nat :: LastToClaim(image, i, a) ==>
                GoodSegment(image, i) && a < mem.Length && mem[a] == Given(image, i, a)
    ensures rc == 0 ==> forall a: nat :: a < mem.Length && NoneClaims(image, a) ==> mem[a] == old(mem[a])
    ensures forall a :: 0 <= a < mem.Length && !(0x20_0000 <= a < 0x40_0000) ==> mem[a] == old(mem[a])
  {
    entry := 0;
    AcceptsExactly(image);
    var ok := Check(image);
    if !ok {
      return -1, 0;
    }
    ghost var was := mem[..];
    var h := HeaderOf(image);
    TableCheckExact(image);
    LoadMeans(was, image);
    hide HeaderOf, LoadFrom, LastToClaim, NoneClaims, Given, GoodSegment, PType, PhdrAt, Word, TableFits, AllInside;
    rc := LoadSegments(image, mem, h);
    entry := h.entry;
  }

  /** The checks before the first segment. */
  method Check(image: seq<byte>) returns (ok: bool)
    ensures ok <==> Accepts(image)
  {
    if |image| < 64 {
      return false;
    }
    assert image[..4] == [image[0], image[1], image[2], image[3]];
    if image[0] != 0x7F || image[1] != 0x45 || image[2] != 0x4C || image[3] != 0x46 {
      return false;
    }
    if image[4] != 2 || image[5] != 1 {
      return false;
    }
    if ReadU16(image, 16) != 2 || ReadU16(image, 18) != 0x3E {
      return false;
    }
    var h := HeaderOf(image);
    ok := h.phentsize >= 56 && TableEnd(h) <= |image| && USER_START <= h.entry < USER_END;
  }

  /** The walk over the program headers. */
  method LoadSegments(image: seq<byte>, mem: array<byte>, h: Header) returns (rc: int)
    requires mem.Length >= USER_END && h.phentsize >= 56 && TableInside(image, h)
    modifies mem
    ensures rc == 0 || rc == -1
    ensures var r := LoadFrom(old(mem[..]), image, h, 0);
            mem[..] == r.mem && (rc == 0 <==> r.ok)
  {
    hide ReadU32, ReadU64, Apply;
    var i: nat := 0;
    ghost var goal := LoadFrom(mem[..], image, h, 0);
    while i < h.phnum
      invariant i <= h.phnum && LoadFrom(mem[..], image, h, i) == goal
    {
      var at := HeaderAt(h, i);
      if ReadU32(image, at) == PT_LOAD {
        var s := SegmentAt(image, at);
        if !Placeable(s, |image|) {
          return -1;
        }
        PlaceSegment(image, mem, s);
      }
      i := i + 1;
    }
    return 0;
  }

  /** The copy loop and the zero-fill loop. */
  method PlaceSegment(image: seq<byte>, mem: array<byte>, s: Segment)
    requires mem.Length >= USER_END && Placeable(s, |image|)
    modifies mem
    ensures mem[..] == Apply(old(mem[..]), image, s)
  {
    ghost var was := mem[..];
    CopyIn(image, mem, s);
    ghost var copied := mem[..];
    ZeroFill(mem, s, |image|);
    forall a | 0 <= a < mem.Length
      ensures mem[a] == Apply(was, image, s)[a]
    {
      ApplyAt(was, image, s, a);
      assert copied[a] == if s.vaddr <= a < s.vaddr + s.filesz then image[s.offset + (a - s.vaddr)] else was[a];
    }
  }

  method CopyIn(image: seq<byte>, mem: array<byte>, s: Segment)
    requires mem.Length >= USER_END && Placeable(s, |image|)
    modifies mem
    ensures forall a :: 0 <= a < mem.Length ==>
              mem[a] == if s.vaddr <= a < s.vaddr + s.filesz then image[s.offset + (a - s.vaddr)] else old(mem[a])
  {
    var j: nat := 0;
    while j < s.filesz
      invariant j <= s.filesz
      invariant forall a :: 0 <= a < mem.Length ==>
                  mem[a] == if s.vaddr <= a < s.vaddr + j then image[s.offset + (a - s.vaddr)] else old(mem[a])
    {
      mem[s.vaddr + j] := image[s.offset + j];
      j := j + 1;
    }
  }

  method ZeroFill(mem: array<byte>, s: Segment, ghost size: nat)
    requires mem.Length >= USER_END && Placeable(s, size)
    modifies mem
    ensures forall a :: 0 <= a < mem.Length ==>
              mem[a] == if s.vaddr + s.filesz <= a < s.vaddr + s.memsz then 0 else old(mem[a])
  {
    var j: nat := s.filesz;
    while j < s.memsz
      invariant s.filesz <= j <= s.memsz
      invariant forall a :: 0 <= a < mem.Length ==>
                  mem[a] == if s.vaddr + s.filesz <= a < s.vaddr + j then 0 else old(mem[a])
    {
      mem[s.vaddr + j] := 0;
      j := j + 1;
    }
  }
}
