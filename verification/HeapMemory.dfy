/** Heap memory byte by byte, as the heap's clients see it. The first 16 bytes of every page are the
    header words the allocator reads and writes; the rest it never touches. */
module HeapMemory {
  import opened Machine
  import opened Bits
  import opened Bytes
  import opened PmmSpec
  import opened Pmm
  import opened Tiling
  import opened BuddySpec
  import opened BuddyState
  import opened BuddyTheorems
  import opened Chains
  import opened Heap

  const MEMORY: nat := PAGES * PAGE_SIZE

  // ----- Header words as bytes --------------------------------------------------------

  const PAGE_NUMBERS: nat := 0x10_0000_0000_0000

  /** The 64-bit word behind a link: page numbers stand for page addresses, larger numbers for every
      other word a client may leave there. */
  function LinkWord(link: nat): nat {
    if link < PAGE_NUMBERS then link * PAGE_SIZE else link - PAGE_NUMBERS
  }

  function WordLink(word: nat): nat {
    if word % PAGE_SIZE == 0 then word / PAGE_SIZE else PAGE_NUMBERS + word
  }

  /** The 16 bytes at the start of a page, and the header they hold. */
  function HeaderBytes(h: Header): (s: seq<byte>)
    ensures |s| == HEADER_SIZE
  {
    ToLE(LinkWord(h.freeNext), 8) + ToLE(h.magic, 4) + ToLE(h.order, 4)
  }

  function HeaderFrom(s: seq<byte>): Header
    requires |s| == HEADER_SIZE
  {
    Header(WordLink(FromLE(s[..8])), FromLE(s[8..12]), FromLE(s[12..]))
  }

  /** Any 16 bytes are the bytes of the header they hold. */
  lemma HeaderOfBytes(s: seq<byte>)
    requires |s| == HEADER_SIZE
    ensures HeaderBytes(HeaderFrom(s)) == s
  {
    assert Pow256(8) == WORD;
    hide ToLE, FromLE, Pow256;
    ToFromLE(s[..8]);
    ToFromLE(s[8..12]);
    ToFromLE(s[12..]);
    assert LinkWord(WordLink(FromLE(s[..8]))) == FromLE(s[..8]);
    assert s == s[..8] + s[8..12] + s[12..];
  }

  /** A header the allocator writes is read back from its bytes. */
  lemma BytesOfHeader(h: Header)
    requires h.freeNext < PAGES && h.magic < UINT32 && h.order <= MAX_ORDER
    ensures HeaderFrom(HeaderBytes(h)) == h
  {
    var s := HeaderBytes(h);
    HeaderParts(h);
    assert s[12..16] == s[12..];
    LinkBack(h.freeNext);
    WordSizes();
    hide ToLE, FromLE, Pow256, HeaderBytes, LinkWord, WordLink;
    FromToLE(LinkWord(h.freeNext), 8);
    FromToLE(h.magic, 4);
    FromToLE(h.order, 4);
  }

  lemma LinkBack(page: nat)
    requires page < PAGES
    ensures LinkWord(page) < WORD && WordLink(LinkWord(page)) == page
  {
  }

  lemma WordSizes()
    ensures Pow256(8) == WORD && Pow256(4) == UINT32
  {
  }

  // ----- Addresses -----------------------------------------------------------------

  function ByteAt(headers: seq<Header>, rest: seq<byte>, a: nat): byte
    requires |headers| == PAGES && |rest| == MEMORY && a < MEMORY
  {
    if a % PAGE_SIZE < HEADER_SIZE then HeaderBytes(headers[a / PAGE_SIZE])[a % PAGE_SIZE] else rest[a]
  }

  /** Replacing one byte of a page's header words. */
  lemma ByteInWords(headers: seq<Header>, rest: seq<byte>, a: nat, v: byte, b: nat)
    requires |headers| == PAGES && |rest| == MEMORY && a < MEMORY && b < MEMORY && a % PAGE_SIZE < HEADER_SIZE
    ensures var s := HeaderBytes(headers[a / PAGE_SIZE])[a % PAGE_SIZE := v];
            ByteAt(headers[a / PAGE_SIZE := HeaderFrom(s)], rest, b) == if b == a then v else ByteAt(headers, rest, b)
  {
    HeaderOfBytes(HeaderBytes(headers[a / PAGE_SIZE])[a % PAGE_SIZE := v]);
    hide HeaderBytes, HeaderFrom;
  }

  /** n bytes from an address on. */
  ghost function Span(headers: seq<Header>, rest: seq<byte>, a: nat, n: nat): (s: seq<byte>)
    requires |headers| == PAGES && |rest| == MEMORY && a + n <= MEMORY
    ensures |s| == n && forall k :: 0 <= k < n ==> s[k] == ByteAt(headers, rest, a + k)
  {
    seq<byte>(n, k requires 0 <= k < n => ByteAt(headers, rest, a + k))
  }

  /** The words of a header, read from memory. */
  lemma WordsOfHeader(headers: seq<Header>, rest: seq<byte>, page: nat, magic: nat, order: nat)
    requires |headers| == PAGES && |rest| == MEMORY && page < PAGES && headers[page] == Header(0, magic, order)
    requires magic < UINT32 && order < UINT32
    ensures ReadU32(Span(headers, rest, page * PAGE_SIZE + 8, 4), 0) == magic
    ensures ReadU32(Span(headers, rest, page * PAGE_SIZE + 12, 4), 0) == order
  {
    hide HeaderBytes, Span, ReadU32, ToLE;
    var s := HeaderBytes(headers[page]);
    HeaderParts(headers[page]);
    HeaderSpan(headers, rest, page, 8, 4);
    HeaderSpan(headers, rest, page, 12, 4);
    WordOf(s[8..12], magic);
    WordOf(s[12..16], order);
  }

  lemma HeaderParts(h: Header)
    ensures HeaderBytes(h)[..8] == ToLE(LinkWord(h.freeNext), 8)
    ensures HeaderBytes(h)[8..12] == ToLE(h.magic, 4) && HeaderBytes(h)[12..16] == ToLE(h.order, 4)
  {
    hide ToLE, LinkWord;
  }

  lemma WordOf(s: seq<byte>, x: nat)
    requires x < UINT32 && s == ToLE(x, 4)
    ensures |s| == 4 && ReadU32(s, 0) == x
  {
    assert s[0..4] == s;
    ReadU32Of(s, 0, x);
  }

  /** Bytes inside a page's header words. */
  lemma HeaderSpan(headers: seq<Header>, rest: seq<byte>, page: nat, k: nat, n: nat)
    requires |headers| == PAGES && |rest| == MEMORY && page < PAGES && k + n <= HEADER_SIZE
    ensures Span(headers, rest, page * PAGE_SIZE + k, n) == HeaderBytes(headers[page])[k..k + n]
  {
    hide HeaderBytes;
    var span, part := Span(headers, rest, page * PAGE_SIZE + k, n), HeaderBytes(headers[page])[k..k + n];
    forall j | 0 <= j < n
      ensures span[j] == part[j]
    {
      assert (page * PAGE_SIZE + k + j) / PAGE_SIZE == page && (page * PAGE_SIZE + k + j) % PAGE_SIZE == k + j;
    }
  }

  /** The sixteen bytes a header written by the allocator is laid out in: the next block's address, the
      mark, the order. */
  lemma HeaderSpelled(headers: seq<Header>, rest: seq<byte>, page: nat)
    requires |headers| == PAGES && |rest| == MEMORY && page < PAGES && headers[page].freeNext < PAGES
    ensures var h := headers[page];
            Span(headers, rest, page * PAGE_SIZE, 16) == ToLE(h.freeNext * 4096, 8) + ToLE(h.magic, 4) + ToLE(h.order, 4)
  {
    hide ToLE, Span, HeaderBytes;
    HeaderSpan(headers, rest, page, 0, 16);
    HeaderParts(headers[page]);
    var s := HeaderBytes(headers[page]);
    assert s[0..0 + 16] == s == s[..8] + s[8..12] + s[12..16];
  }

  /** The marks, byte by byte: the letters COLA in a block handed out, ydub in a free one. */
  lemma MarkBytes()
    ensures ToLE(MAGIC_ALLOC, 4) == [0x43, 0x4F, 0x4C, 0x41] && ToLE(MAGIC_FREE, 4) == [0x79, 0x64, 0x75, 0x42]
  {
    assert ToLE(0x41, 1) == [0x41] && ToLE(0x414C, 2) == [0x4C, 0x41] && ToLE(0x41_4C4F, 3) == [0x4F, 0x4C, 0x41];
    assert ToLE(0x42, 1) == [0x42] && ToLE(0x4275, 2) == [0x75, 0x42] && ToLE(0x42_7564, 3) == [0x64, 0x75, 0x42];
  }

  /** What code outside the allocator may write: anything in no free page but the headers of live blocks. */
  ghost predicate MayWrite(st: State, a: nat) {
    && a < MEMORY && a / PAGE_SIZE !in FreePages(st)
    && (a / PAGE_SIZE in st.live ==> a % PAGE_SIZE >= HEADER_SIZE)
  }

  /** Address a lies in the payload of the live block at page. */
  ghost predicate InPayload(st: State, page: nat, a: nat) {
    page in st.live && page * PAGE_SIZE + HEADER_SIZE <= a < (page + Pow2(st.live[page])) * PAGE_SIZE
  }

  lemma LiveShaped(st: State, page: nat)
    requires Inv(st) && page in st.live
    ensures Block(page, st.live[page]).Shaped() && page < PAGES && (page + 1) * PAGE_SIZE <= MEMORY
  {
    assert Block(page, st.live[page]) in LiveBlocks(st.live);
  }

  /** A live block's payload lies in live pages, and its owner may write all of it. */
  lemma PayloadWritable(st: State, page: nat, a: nat)
    requires Inv(st) && InPayload(st, page, a)
    ensures a < MEMORY && a / PAGE_SIZE in LivePages(st) && MayWrite(st, a)
  {
    var b, p := Block(page, st.live[page]), a / PAGE_SIZE;
    assert b in LiveBlocks(st.live) && b.Shaped() && b.Covers(p);
    assert b.Pages() <= LivePages(st);
    if p in st.live {
      var c := Block(p, st.live[p]);
      assert c in LiveBlocks(st.live) && c.Covers(p);
      TilesUnique(LiveBlocks(st.live), LivePages(st), b, c, p);
    }
  }

  /** What may be written is exactly what the heap does not own and the payloads of live blocks. */
  lemma WritableExactly(st: State, a: nat)
    requires Inv(st)
    ensures MayWrite(st, a) <==> a < MEMORY && (a / PAGE_SIZE !in st.owned || exists page :: InPayload(st, page, a))
  {
    forall page | InPayload(st, page, a)
      ensures MayWrite(st, a)
    {
      PayloadWritable(st, page, a);
    }
    LiveStart(st, a / PAGE_SIZE);
    if a / PAGE_SIZE in LivePages(st) {
      var page := LiveAround(st, a);
      assert MayWrite(st, a) ==> InPayload(st, page, a);
    }
  }

  lemma LiveStart(st: State, p: nat)
    requires Inv(st)
    ensures p in st.live ==> p in LivePages(st)
    ensures LivePages(st) <= st.owned
  {
    if p in st.live {
      LiveShaped(st, p);
      assert Block(p, st.live[p]) in LiveBlocks(st.live) && p in Block(p, st.live[p]).Pages();
    }
  }

  /** An address in a live page lies in the payload of the block that has the page, or in its header. */
  lemma LiveAround(st: State, a: nat) returns (page: nat)
    requires Inv(st) && a / PAGE_SIZE in LivePages(st)
    ensures page in st.live && (InPayload(st, page, a) || (a / PAGE_SIZE == page && a % PAGE_SIZE < HEADER_SIZE))
  {
    var b :| b in LiveBlocks(st.live) && b.Covers(a / PAGE_SIZE);
    page := b.page;
  }

  /** A successful kmalloc has room for the whole request, apart from everything live before. */
  lemma NewPayload(st: State, size: nat)
    requires Inv(st) && CountFits(size)
    ensures |st.lists| == MAX_ORDER + 1 && |st.bits| == PAGES
    ensures var r := BuddyState.Kmalloc(st, size);
            r.pointer != 0 ==>
              && size > 0 && Inv(r.st)
              && forall a :: r.pointer <= a < r.pointer + size ==>
                   InPayload(r.st, PageOf(r.pointer), a) && MayWrite(r.st, a) && a / PAGE_SIZE !in LivePages(st)
  {
    if size > 0 && PageCount(size) <= 1024 {
      OrderExact(size);
      var order := OrderFor(PageCount(size));
      ObtainInv(st, order);
      var r := BuddyState.Kmalloc(st, size);
      if r.pointer != 0 {
        var b := Block(PageOf(r.pointer), order);
        forall a | r.pointer <= a < r.pointer + size
          ensures InPayload(r.st, b.page, a) && MayWrite(r.st, a) && a / PAGE_SIZE !in LivePages(st)
        {
          PayloadWritable(r.st, b.page, a);
          assert b.Covers(a / PAGE_SIZE);
        }
      }
    }
  }

  // ----- Memory ----------------------------------------------------------------------

  class Memory {
    const heap: BuddyHeap
    const rest: array<byte>

    ghost predicate Valid()
      reads this, heap, heap.freeLists, heap.headers, heap.pmm, heap.pmm.bitmap
    {
      && heap.Valid() && heap.headers.Length == PAGES && rest.Length == MEMORY
      && rest as object != heap.freeLists && rest as object != heap.pmm.bitmap
    }

    ghost function At(a: nat): byte
      reads this, heap, heap.headers, rest
      requires heap.headers.Length == PAGES && rest.Length == MEMORY && a < MEMORY
    {
      ByteAt(heap.headers[..], rest[..], a)
    }

    /** n bytes from an address on. */
    ghost function Bytes(a: nat, n: nat): (s: seq<byte>)
      reads this, heap, heap.headers, rest
      requires heap.headers.Length == PAGES && rest.Length == MEMORY && a + n <= MEMORY
      ensures |s| == n && forall k :: 0 <= k < n ==> s[k] == At(a + k)
    {
      Span(heap.headers[..], rest[..], a, n)
    }

    constructor (h: BuddyHeap, bytes: array<byte>)
      requires h.Valid() && bytes.Length == MEMORY
      requires bytes as object != h.freeLists && bytes as object != h.pmm.bitmap
      ensures Valid() && heap == h && rest == bytes
    {
      heap, rest := h, bytes;
    }

    method Load(a: nat) returns (v: byte)
      requires Valid() && a < MEMORY
      ensures v == At(a)
    {
      v := if a % PAGE_SIZE < HEADER_SIZE then HeaderBytes(heap.headers[a / PAGE_SIZE])[a % PAGE_SIZE] else rest[a];
    }

    /** A store by code outside the allocator: one byte changes, and the heap's state does not. */
    method Store(a: nat, v: byte)
      requires Valid() && MayWrite(heap.Abs(), a)
      modifies heap.headers, rest
      ensures Valid() && heap.Abs() == old(heap.Abs())
      ensures forall b :: 0 <= b < MEMORY ==> At(b) == if b == a then v else old(At(b))
    {
      hide HeaderBytes, HeaderFrom, Inv, Linked;
      ghost var h, r := heap.headers[..], rest[..];
      if a % PAGE_SIZE < HEADER_SIZE {
        heap.ForeignWrite(a / PAGE_SIZE, HeaderFrom(HeaderBytes(heap.headers[a / PAGE_SIZE])[a % PAGE_SIZE := v]));
        assert rest[..] == r;
        forall b | 0 <= b < MEMORY
          ensures At(b) == if b == a then v else old(At(b))
        {
          ByteInWords(h, r, a, v, b);
        }
      } else {
        rest[a] := v;
        assert heap.headers[..] == h && rest[..] == r[a := v];
      }
    }

    /** kmalloc writes no byte of a live block. */
    method Kmalloc(size: nat) returns (pointer: nat)
      requires Valid() && size < WORD
      modifies heap, heap.freeLists, heap.headers, heap.pmm, heap.pmm.bitmap
      ensures Valid()
      ensures Result(pointer, heap.Abs()) == BuddyState.Kmalloc(old(heap.Abs()), size)
      ensures forall a :: 0 <= a < MEMORY && a / PAGE_SIZE in LivePages(old(heap.Abs())) ==> At(a) == old(At(a))
    {
      hide Inv, Linked, HeaderBytes, LivePages, BuddyState.Kmalloc;
      pointer := heap.Kmalloc(size);
    }

    /** A 32-bit word, assembled from its bytes. */
    method LoadWord(a: nat) returns (w: nat)
      requires Valid() && a + 4 <= MEMORY
      ensures w == ReadU32(Bytes(a, 4), 0)
    {
      hide ByteAt, BuddyHeap.Valid;
      var b0 := Load(a);
      var b1 := Load(a + 1);
      var b2 := Load(a + 2);
      var b3 := Load(a + 3);
      w := (b0 as nat) + 0x100 * (b1 as nat) + 0x1_0000 * (b2 as nat) + 0x100_0000 * (b3 as nat);
    }

    /** kfree of null, or of any pointer whose header fails a check, changes nothing. One that passes must
        be the pointer of a live block: a stale or forged header is the caller's error, not always
        detected. No byte of a block that stays live is written. */
    method Kfree(pointer: nat)
      requires Valid() && (pointer != 0 ==> HEADER_SIZE <= pointer <= MEMORY)
      requires pointer != 0 && ReadU32(Bytes(pointer - 8, 4), 0) == 0x414C_4F43 && ReadU32(Bytes(pointer - 4, 4), 0) <= 10
               ==> IsPointer(heap.live, pointer)
      modifies heap, heap.freeLists, heap.headers
      ensures Valid()
      ensures pointer == 0 || old(ReadU32(Bytes(pointer - 8, 4), 0)) != 0x414C_4F43
              || old(ReadU32(Bytes(pointer - 4, 4), 0)) > 10 ==>
                heap.Abs() == old(heap.Abs()) && heap.headers[..] == old(heap.headers[..])
      ensures pointer != 0 && IsPointer(old(heap.live), pointer) ==>
                && old(heap.Abs()).live[PageOf(pointer)] <= MAX_ORDER && |old(heap.Abs()).lists| == MAX_ORDER + 1
                && heap.Abs() == BuddyState.Kfree(old(heap.Abs()), PageOf(pointer))
      ensures forall a :: 0 <= a < MEMORY && a / PAGE_SIZE in LivePages(heap.Abs()) ==> At(a) == old(At(a))
    {
      hide Inv, Linked, HeaderBytes, LivePages, BuddyState.Kfree, ReadU32, IsPointer;
      if pointer == 0 {
        return;
      }
      if IsPointer(heap.live, pointer) {
        LivePointer(pointer);
      }
      var magic := LoadWord(pointer - 8);
      if magic != MAGIC_ALLOC {
        return;
      }
      var order := LoadWord(pointer - 4);
      if order > MAX_ORDER {
        return;
      }
      heap.Kfree(pointer);
    }

    /** The bytes before a live block's payload: no link, the mark of a block in use, its order. */
    lemma LiveHeader(page: nat)
      requires Valid() && page in heap.live
      ensures page < PAGES
      ensures Bytes(page * PAGE_SIZE, 16) == ToLE(0, 8) + [0x43, 0x4F, 0x4C, 0x41] + ToLE(heap.live[page], 4)
    {
      hide ToLE, Linked, Inv;
      HeaderSpelled(heap.headers[..], rest[..], page);
      MarkBytes();
    }

    /** The free list of order k in memory: its blocks start with the address of the next one, 0 at the
        end, the mark of a free block and the order. */
    lemma FreeHeader(k: nat, i: nat)
      requires Valid() && k <= MAX_ORDER && |heap.lists| == MAX_ORDER + 1 && i < |heap.lists[k]|
      ensures var page, next := heap.lists[k][i], if i + 1 < |heap.lists[k]| then heap.lists[k][i + 1] else 0;
              && 0 < page < PAGES
              && Bytes(page * PAGE_SIZE, 16) == ToLE(next * 4096, 8) + [0x79, 0x64, 0x75, 0x42] + ToLE(k, 4)
    {
      hide ToLE, Linked, Inv;
      LinkAt(heap.headers[..], heap.freeLists[..], heap.lists, k, i);
      if i + 1 < |heap.lists[k]| {
        LinkAt(heap.headers[..], heap.freeLists[..], heap.lists, k, i + 1);
      }
      HeaderSpelled(heap.headers[..], rest[..], heap.lists[k][i]);
      MarkBytes();
    }

    /** A live block's pointer passes the checks. */
    lemma LivePointer(pointer: nat)
      requires Valid() && IsPointer(heap.live, pointer)
      ensures pointer % PAGE_SIZE == HEADER_SIZE && HEADER_SIZE <= pointer <= MEMORY && PageOf(pointer) < PAGES
      ensures ReadU32(Bytes(pointer - 8, 4), 0) == MAGIC_ALLOC && ReadU32(Bytes(pointer - 4, 4), 0) <= MAX_ORDER
      ensures heap.headers[PageOf(pointer)].magic == MAGIC_ALLOC && heap.headers[PageOf(pointer)].order <= MAX_ORDER
      ensures PageOf(pointer) in heap.live
    {
      hide ByteAt, ReadU32, HeaderBytes, Tiles, FreeTiles, Linked, BitSet;
      var page := PageOf(pointer);
      var order := heap.live[page];
      LiveShaped(heap.Abs(), page);
      assert heap.headers[..][page] == Header(0, MAGIC_ALLOC, order);
      assert pointer == page * PAGE_SIZE + HEADER_SIZE;
      WordsOfHeader(heap.headers[..], rest[..], page, MAGIC_ALLOC, order);
    }
  }

  /** A pointer kmalloc handed out and nobody has freed. */
  ghost predicate IsPointer(live: map<nat, nat>, pointer: nat) {
    pointer % PAGE_SIZE == HEADER_SIZE && PageOf(pointer) in live
  }
}
