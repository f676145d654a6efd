/** Free lists threaded through block headers. */
module Chains {
  import opened PmmSpec
  import opened Tiling
  import opened BuddySpec

  const MAGIC_FREE: nat := 0x42756479
  const MAGIC_ALLOC: nat := 0x414C4F43

  /** The first 16 bytes of a page; links are page numbers, 0 for none. */
  datatype Header = Header(freeNext: nat, magic: nat, order: nat)

  ghost function Next(s: seq<nat>, i: nat): nat {
    if i < |s| then s[i] else 0
  }

  /** From head, the links run through exactly s, whose headers are marked free at order k. */
  ghost predicate Chain(h: seq<Header>, head: nat, s: seq<nat>, k: nat) {
    && NoDup(s)
    && head == Next(s, 0)
    && forall i :: 0 <= i < |s| ==> 0 < s[i] < |h| && h[s[i]] == Header(Next(s, i + 1), MAGIC_FREE, k)
  }

  ghost predicate Linked(h: seq<Header>, heads: seq<nat>, ls: Lists) {
    && |h| == PAGES
    && |heads| == |ls| == MAX_ORDER + 1
    && forall k {:trigger Chain(h, heads[k], ls[k], k)} :: 0 <= k <= MAX_ORDER ==> Chain(h, heads[k], ls[k], k)
  }

  ghost predicate Listed(ls: Lists, page: nat) {
    exists k :: 0 <= k < |ls| && page in ls[k]
  }

  lemma ListedMarks(h: seq<Header>, heads: seq<nat>, ls: Lists, k: nat, p: nat)
    requires Linked(h, heads, ls) && k <= MAX_ORDER && p in ls[k]
    ensures 0 < p < PAGES && h[p].magic == MAGIC_FREE && h[p].order == k
    ensures forall j :: 0 <= j <= MAX_ORDER && p in ls[j] ==> j == k
  {
    assert Chain(h, heads[k], ls[k], k);
    forall j | 0 <= j <= MAX_ORDER && p in ls[j]
      ensures j == k
    {
      assert Chain(h, heads[j], ls[j], j);
    }
  }

  /** What the list holds at position i, read through the links. */
  lemma LinkAt(h: seq<Header>, heads: seq<nat>, ls: Lists, k: nat, i: nat)
    requires Linked(h, heads, ls) && k <= MAX_ORDER && i <= |ls[k]|
    ensures heads[k] == Next(ls[k], 0)
    ensures i < |ls[k]| ==> 0 < ls[k][i] < PAGES && h[ls[k][i]] == Header(Next(ls[k], i + 1), MAGIC_FREE, k)
  {
    assert Chain(h, heads[k], ls[k], k);
  }

  /** A chain depends only on the headers of its own blocks. */
  lemma ChainFrame(h: seq<Header>, h': seq<Header>, head: nat, s: seq<nat>, k: nat)
    requires Chain(h, head, s, k) && |h'| == |h|
    requires forall p :: p in s ==> 0 <= p < |h| && h'[p] == h[p]
    ensures Chain(h', head, s, k)
  {
    forall i | 0 <= i < |s|
      ensures 0 < s[i] < |h'| && h'[s[i]] == Header(Next(s, i + 1), MAGIC_FREE, k)
    {
      assert s[i] in s;
    }
  }

  lemma LinkedFrame(h: seq<Header>, h': seq<Header>, heads: seq<nat>, ls: Lists)
    requires Linked(h, heads, ls) && |h'| == |h|
    requires forall p :: 0 <= p < |h| && Listed(ls, p) ==> h'[p] == h[p]
    ensures Linked(h', heads, ls)
  {
    forall k | 0 <= k <= MAX_ORDER
      ensures Chain(h', heads[k], ls[k], k)
    {
      forall p | p in ls[k]
        ensures 0 <= p < |h| && h'[p] == h[p]
      {
        ListedMarks(h, heads, ls, k, p);
        assert Listed(ls, p);
      }
      ChainFrame(h, h', heads[k], ls[k], k);
    }
  }

  lemma PushChain(h: seq<Header>, head: nat, s: seq<nat>, k: nat, page: nat)
    requires Chain(h, head, s, k) && 0 < page < |h| && page !in s
    ensures Chain(h[page := Header(head, MAGIC_FREE, k)], page, [page] + s, k)
  {
    var h' := h[page := Header(head, MAGIC_FREE, k)];
    ChainFrame(h, h', head, s, k);
    var t := [page] + s;
    forall i | 0 <= i < |t|
      ensures 0 < t[i] < |h'| && h'[t[i]] == Header(Next(t, i + 1), MAGIC_FREE, k)
    {
      if i > 0 {
        assert t[i] == s[i - 1];
        assert Next(t, i + 1) == Next(s, i);
      }
    }
  }

  /** Writing one header that is not on a list leaves that list alone. */
  lemma OtherChain(h: seq<Header>, heads: seq<nat>, ls: Lists, j: nat, p: nat, v: Header)
    requires Linked(h, heads, ls) && j <= MAX_ORDER && p < |h| && p !in ls[j]
    ensures Chain(h[p := v], heads[j], ls[j], j)
  {
    forall q | q in ls[j]
      ensures 0 <= q < |h| && h[p := v][q] == h[q]
    {
      ListedMarks(h, heads, ls, j, q);
    }
    ChainFrame(h, h[p := v], heads[j], ls[j], j);
  }

  lemma PushLinked(h: seq<Header>, heads: seq<nat>, ls: Lists, k: nat, page: nat)
    requires Linked(h, heads, ls) && k <= MAX_ORDER && 0 < page < PAGES && !Listed(ls, page)
    ensures Linked(h[page := Header(heads[k], MAGIC_FREE, k)], heads[k := page], Push(ls, k, page))
  {
    var v := Header(heads[k], MAGIC_FREE, k);
    forall j | 0 <= j <= MAX_ORDER
      ensures Chain(h[page := v], heads[k := page][j], Push(ls, k, page)[j], j)
    {
      assert page !in ls[j];
      if j == k {
        PushChain(h, heads[k], ls[k], k, page);
      } else {
        OtherChain(h, heads, ls, j, page, v);
      }
    }
  }

  /** Headers after the head of a list is popped. */
  ghost function Popped(h: seq<Header>, p: nat): seq<Header>
    requires p < |h|
  {
    h[p := h[p].(freeNext := 0)]
  }

  /** Headers after block p, reached through prev, is unlinked. */
  ghost function Skipped(h: seq<Header>, prev: nat, p: nat): seq<Header>
    requires prev < |h| && p < |h|
  {
    Popped(h[prev := h[prev].(freeNext := h[p].freeNext)], p)
  }

  lemma PopChain(h: seq<Header>, head: nat, s: seq<nat>, k: nat)
    requires Chain(h, head, s, k) && s != []
    ensures Chain(Popped(h, s[0]), h[s[0]].freeNext, s[1..], k)
    ensures RemoveFirst(s, s[0]) == s[1..]
  {
    forall i | 0 <= i < |s[1..]|
      ensures Popped(h, s[0])[s[1..][i]] == Header(Next(s[1..], i + 1), MAGIC_FREE, k)
    {
      assert s[1..][i] == s[i + 1];
    }
  }

  lemma CutNoDup(s: seq<nat>, i: nat)
    requires NoDup(s) && i < |s|
    ensures NoDup(s[..i] + s[i + 1..])
    ensures RemoveFirst(s, s[i]) == s[..i] + s[i + 1..]
  {
    assert s[i] !in s[..i];
    RemoveFirstAt(s, i);
    var t := s[..i] + s[i + 1..];
    forall a, b | 0 <= a < b < |t|
      ensures t[a] != t[b]
    {
      CutAt(s, i, a);
      CutAt(s, i, b);
    }
  }

  /** Where the elements of a sequence are once element i has been cut out. */
  lemma CutAt(s: seq<nat>, i: nat, a: nat)
    requires i < |s| && a < |s| - 1
    ensures (s[..i] + s[i + 1..])[a] == s[if a < i then a else a + 1]
  {
  }

  lemma CutNext(s: seq<nat>, i: nat, a: nat)
    requires i < |s| && a < |s|
    ensures Next(s[..i] + s[i + 1..], a) == Next(s, if a < i then a else a + 1)
  {
    if a < |s| - 1 {
      CutAt(s, i, a);
    }
  }

  /** Taking element i > 0 out of a chain: its predecessor skips it, its own link is cleared. */
  lemma CutChain(h: seq<Header>, head: nat, s: seq<nat>, k: nat, i: nat)
    requires Chain(h, head, s, k) && 0 < i < |s|
    ensures Chain(Skipped(h, s[i - 1], s[i]), head, s[..i] + s[i + 1..], k)
  {
    CutNoDup(s, i);
    CutNext(s, i, 0);
    var t := s[..i] + s[i + 1..];
    forall a | 0 <= a < |t|
      ensures 0 < t[a] < |h| && Skipped(h, s[i - 1], s[i])[t[a]] == Header(Next(t, a + 1), MAGIC_FREE, k)
    {
      CutAt(s, i, a);
      CutNext(s, i, a + 1);
      CutHeader(h, head, s, k, i, if a < i then a else a + 1);
    }
  }

  /** The header of one element that stays. */
  lemma CutHeader(h: seq<Header>, head: nat, s: seq<nat>, k: nat, i: nat, b: nat)
    requires Chain(h, head, s, k) && 0 < i < |s| && b < |s| && b != i
    ensures 0 < s[b] < |h|
    ensures Skipped(h, s[i - 1], s[i])[s[b]] == Header(Next(s, if b == i - 1 then i + 1 else b + 1), MAGIC_FREE, k)
  {
    assert s[b] != s[i] && (b != i - 1 ==> s[b] != s[i - 1]);
    assert h[s[b]] == Header(Next(s, b + 1), MAGIC_FREE, k) && h[s[i]].freeNext == Next(s, i + 1);
  }

  lemma PopLinked(h: seq<Header>, heads: seq<nat>, ls: Lists, k: nat)
    requires Linked(h, heads, ls) && k <= MAX_ORDER && ls[k] != []
    ensures 0 < heads[k] < PAGES && heads[k] == ls[k][0]
    ensures Linked(Popped(h, heads[k]), heads[k := h[heads[k]].freeNext], Unlink(ls, k, heads[k]))
  {
    PopChain(h, heads[k], ls[k], k);
    forall j | 0 <= j <= MAX_ORDER && j != k
      ensures Chain(Popped(h, heads[k]), heads[j], ls[j], j)
    {
      assert ls[k][0] in ls[k];
      OtherLists(h, heads, ls, k, j, Popped(h, heads[k]));
    }
  }

  lemma CutLinked(h: seq<Header>, heads: seq<nat>, ls: Lists, k: nat, i: nat)
    requires Linked(h, heads, ls) && k <= MAX_ORDER && 0 < i < |ls[k]|
    ensures 0 < ls[k][i] < PAGES && 0 < ls[k][i - 1] < PAGES
    ensures Linked(Skipped(h, ls[k][i - 1], ls[k][i]), heads, Unlink(ls, k, ls[k][i]))
  {
    CutChain(h, heads[k], ls[k], k, i);
    CutNoDup(ls[k], i);
    forall j | 0 <= j <= MAX_ORDER && j != k
      ensures Chain(Skipped(h, ls[k][i - 1], ls[k][i]), heads[j], ls[j], j)
    {
      assert ls[k][i] in ls[k] && ls[k][i - 1] in ls[k];
      OtherLists(h, heads, ls, k, j, Skipped(h, ls[k][i - 1], ls[k][i]));
    }
  }

  lemma OtherLists(h: seq<Header>, heads: seq<nat>, ls: Lists, k: nat, j: nat, h': seq<Header>)
    requires Linked(h, heads, ls) && k <= MAX_ORDER && j <= MAX_ORDER && j != k
    requires |h'| == |h| && forall p :: 0 <= p < |h| && p !in ls[k] ==> h'[p] == h[p]
    ensures Chain(h', heads[j], ls[j], j)
  {
    forall q | q in ls[j]
      ensures 0 <= q < |h| && h'[q] == h[q]
    {
      ListedMarks(h, heads, ls, j, q);
    }
    ChainFrame(h, h', heads[j], ls[j], j);
  }

  lemma ListedInside(ls: Lists, f: set<nat>, k: nat, p: nat)
    requires FreeTiles(ls, f) && k < |ls| && p in ls[k]
    ensures p in f
  {
    var b := Block(p, k);
    assert b in BlocksOf(ls) && b.Covers(p);
    assert b.Pages() <= f;
  }

  /** A page outside the tiled pages starts no listed block. */
  lemma NotListed(ls: Lists, f: set<nat>, page: nat)
    requires FreeTiles(ls, f) && page !in f
    ensures !Listed(ls, page)
  {
    forall k | 0 <= k < |ls| && page in ls[k]
      ensures false
    {
      ListedInside(ls, f, k, page);
    }
  }
}
