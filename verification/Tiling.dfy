/** Blocks of 2^order pages, and sets of blocks that tile a set of pages exactly. */
module Tiling {
  import opened Bits
  import opened PmmSpec

  const MAX_ORDER: nat := 10

  datatype Block = Block(page: nat, order: nat) {
    function End(): nat {
      page + Pow2(order)
    }

    ghost predicate Covers(p: nat) {
      page <= p < End()
    }

    /** Of an allowed order, inside memory and aligned to its own size. */
    ghost predicate Shaped() {
      order <= MAX_ORDER && 0 < page && End() <= PAGES && Aligned(page, order)
    }

    ghost predicate Apart(c: Block) {
      End() <= c.page || c.End() <= page
    }

    ghost function Pages(): (s: set<nat>)
      ensures forall p :: p in s <==> Covers(p)
    {
      set p: nat | page <= p < End() && Covers(p)
    }
  }

  ghost predicate Covered(s: set<Block>, p: nat) {
    exists b :: b in s && b.Covers(p)
  }

  /** s consists of well-shaped, pairwise apart blocks whose pages are exactly f. */
  ghost predicate Tiles(s: set<Block>, f: set<nat>) {
    && (forall b {:trigger b.Shaped()} :: b in s ==> b.Shaped())
    && (forall b, c {:trigger b.Apart(c)} :: b in s && c in s && b != c ==> b.Apart(c))
    && (forall b {:trigger b.Pages()} :: b in s ==> b.Pages() <= f)
    && (forall p {:trigger Covered(s, p)} :: p in f ==> Covered(s, p))
  }

  lemma TilesAdd(s: set<Block>, f: set<nat>, b: Block)
    requires Tiles(s, f) && b.Shaped() && b.Pages() !! f
    ensures b !in s && Tiles(s + {b}, f + b.Pages())
  {
    assert b.page in b.Pages();
    forall c | c in s
      ensures b.Apart(c)
    {
      assert c.Pages() !! b.Pages();
      assert b.page in b.Pages() && c.page in c.Pages();
      assert b.page !in c.Pages() && c.page !in b.Pages();
    }
    forall p | p in f + b.Pages()
      ensures Covered(s + {b}, p)
    {
      if p in b.Pages() {
        assert b.Covers(p);
      } else {
        assert Covered(s, p);
        var c :| c in s && c.Covers(p);
        assert c in s + {b};
      }
    }
  }

  lemma TilesRemove(s: set<Block>, f: set<nat>, b: Block)
    requires Tiles(s, f) && b in s
    ensures b.Pages() <= f && Tiles(s - {b}, f - b.Pages())
  {
    forall p | p in f - b.Pages()
      ensures Covered(s - {b}, p)
    {
      assert Covered(s, p);
      var c :| c in s && c.Covers(p);
      assert c in s - {b};
    }
    forall c | c in s - {b}
      ensures c.Pages() <= f - b.Pages()
    {
      assert c.Apart(b);
    }
  }

  lemma TilesUnion(s: set<Block>, f: set<nat>, t: set<Block>, g: set<nat>)
    requires Tiles(s, f) && Tiles(t, g) && f !! g
    ensures s !! t && Tiles(s + t, f + g)
  {
    forall b, c | b in s && c in t
      ensures b != c && b.Apart(c)
    {
      assert b.page in b.Pages() && c.page in c.Pages();
      assert b.page !in c.Pages() && c.page !in b.Pages();
    }
    forall p | p in f + g
      ensures Covered(s + t, p)
    {
      if p in f {
        assert Covered(s, p);
        var c :| c in s && c.Covers(p);
        assert c in s + t;
      } else {
        assert Covered(t, p);
        var c :| c in t && c.Covers(p);
        assert c in s + t;
      }
    }
  }

  /** Exactly one block of a tiling covers each tiled page. */
  lemma TilesUnique(s: set<Block>, f: set<nat>, b: Block, c: Block, p: nat)
    requires Tiles(s, f) && b in s && c in s && b.Covers(p) && c.Covers(p)
    ensures b == c
  {
    assert b != c ==> b.Apart(c);
  }

  // ----- Buddies ---------------------------------------------------------

  /** The sibling of a block, by the exclusive or of the source. */
  function Buddy(page: nat, order: nat): nat {
    Xor(page, Pow2(order))
  }

  /** The two halves of a block, and the block two siblings make. */
  function Lower(b: Block): Block
    requires b.order > 0
  {
    Block(b.page, b.order - 1)
  }

  function Upper(b: Block): Block
    requires b.order > 0
  {
    Block(b.page + Pow2(b.order - 1), b.order - 1)
  }

  function Min(a: nat, b: nat): nat {
    if b < a then b else a
  }

  /** A shaped block's halves are shaped. */
  lemma HalvesShaped(b: Block)
    requires b.order > 0 && b.Shaped()
    ensures Lower(b).Shaped() && Upper(b).Shaped()
    ensures !Bit(b.page, b.order - 1) && Bit(Upper(b).page, b.order - 1)
  {
    hide Aligned, Bit;
    var j := b.order - 1;
    AlignedStep(b.page, j);
    UpperBit(b.page, j);
    AlignedShift(b.page, j, j);
  }

  /** A shaped block's halves are shaped, share nothing, and are each other's buddies. */
  lemma Halves(b: Block)
    requires b.order > 0 && b.Shaped()
    ensures Lower(b).Shaped() && Upper(b).Shaped()
    ensures Lower(b).Pages() !! Upper(b).Pages()
    ensures Lower(b).Pages() + Upper(b).Pages() == b.Pages()
    ensures Buddy(Lower(b).page, b.order - 1) == Upper(b).page
    ensures Buddy(Upper(b).page, b.order - 1) == Lower(b).page
  {
    hide Aligned, Bit, Xor;
    HalvesShaped(b);
    XorBit(b.page, b.order - 1);
    XorBit(Upper(b).page, b.order - 1);
  }

  /** The exclusive or yields the true sibling: the other half of the one enclosing block. */
  lemma BuddyIsSibling(page: nat, order: nat)
    requires Aligned(page, order)
    ensures var buddy := Buddy(page, order);
            var up := Block(Min(page, buddy), order + 1);
            && Aligned(up.page, order + 1)
            && ((page == up.page && buddy == Upper(up).page) || (page == Upper(up).page && buddy == up.page))
  {
    hide Aligned, Xor;
    XorBit(page, order);
    if Bit(page, order) {
      BitBelow(page, order);
    } else {
      AlignedStep(page, order);
    }
  }
}
