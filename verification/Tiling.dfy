/** Power-of-two blocks of pages, and sets of such blocks that partition an interval of pages. */
module Tiling {
  import opened Bits

  /** A block of 2^order pages starting at page index `start`. */
  datatype Block = Block(start: nat, order: nat)

  function End(b: Block): nat {
    b.start + Pow2(b.order)
  }

  predicate Covers(b: Block, p: nat) {
    b.start <= p < End(b)
  }

  predicate Apart(b: Block, c: Block) {
    End(b) <= c.start || End(c) <= b.start
  }

  ghost predicate Covered(B: set<Block>, p: nat) {
    exists b :: b in B && Covers(b, p)
  }

  /** The blocks of B lie inside [lo, hi), never overlap, and leave no page of [lo, hi) out. */
  ghost predicate Tiles(B: set<Block>, lo: nat, hi: nat) {
    && (forall b :: b in B ==> lo <= b.start && End(b) <= hi)
    && (forall b, c :: b in B && c in B && b != c ==> Apart(b, c))
    && (forall p :: lo <= p < hi ==> Covered(B, p))
  }

  function Left(b: Block): Block
    requires b.order > 0
  {
    Block(b.start, b.order - 1)
  }

  function Right(b: Block): Block
    requires b.order > 0
  {
    Block(b.start + Pow2(b.order - 1), b.order - 1)
  }

  /** Replacing a block by its two halves keeps the tiling. */
  lemma SplitKeepsTiling(B: set<Block>, b: Block, lo: nat, hi: nat)
    requires Tiles(B, lo, hi) && b in B && b.order > 0
    ensures Tiles(B - {b} + {Left(b), Right(b)}, lo, hi)
    ensures Left(b) !in B && Right(b) !in B
  {
    var B' := B - {b} + {Left(b), Right(b)};
    assert !Apart(b, Left(b)) && !Apart(b, Right(b));
    forall p | lo <= p < hi
      ensures Covered(B', p)
    {
      assert Covered(B, p);
      var c :| c in B && Covers(c, p);
      if c == b {
        assert Covers(Left(b), p) || Covers(Right(b), p);
      } else {
        assert c in B';
      }
    }
    forall c, d | c in B' && d in B' && c != d
      ensures Apart(c, d)
    {
      var c' := if c in B then c else b;
      var d' := if d in B then d else b;
      assert c' != d' ==> Apart(c', d');
    }
  }

  /** Replacing two adjacent halves by the block they form keeps the tiling. */
  lemma MergeKeepsTiling(B: set<Block>, b: Block, lo: nat, hi: nat)
    requires Tiles(B, lo, hi) && b.order > 0 && Left(b) in B && Right(b) in B
    ensures Tiles(B - {Left(b), Right(b)} + {b}, lo, hi)
    ensures b !in B
  {
    var B' := B - {Left(b), Right(b)} + {b};
    assert !Apart(b, Left(b)) && !Apart(b, Right(b));
    forall p | lo <= p < hi
      ensures Covered(B', p)
    {
      assert Covered(B, p);
      var c :| c in B && Covers(c, p);
      if c == Left(b) || c == Right(b) {
        assert b in B' && Covers(b, p);
      } else {
        assert c in B';
      }
    }
    forall c | c in B' && c != b
      ensures Apart(b, c)
    {
      assert Apart(Left(b), c) && Apart(Right(b), c);
    }
  }

  /** Total number of pages in a set of blocks. */
  ghost function Pages(B: set<Block>): nat {
    if B == {} then 0 else
    var b :| b in B;
    Pow2(b.order) + Pages(B - {b})
  }

  lemma {:induction false} PagesRemove(B: set<Block>, b: Block)
    requires b in B
    ensures Pages(B) == Pow2(b.order) + Pages(B - {b})
    decreases B
  {
    var c :| c in B && Pages(B) == Pow2(c.order) + Pages(B - {c});
    if b != c {
      PagesRemove(B - {c}, b);
      PagesRemove(B - {b}, c);
      assert B - {c} - {b} == B - {b} - {c};
    }
  }

  lemma {:induction false} PagesUnion(B: set<Block>, C: set<Block>)
    requires B !! C
    ensures Pages(B + C) == Pages(B) + Pages(C)
    decreases B
  {
    if B == {} {
      assert B + C == C;
    } else {
      var b :| b in B;
      PagesUnion(B - {b}, C);
      PagesRemove(B, b);
      PagesRemove(B + C, b);
      assert B + C - {b} == (B - {b}) + C;
    }
  }

  /** Conservation: a tiling of [lo, hi) holds exactly hi - lo pages. */
  lemma {:induction false} TilingConserves(B: set<Block>, lo: nat, hi: nat)
    requires lo <= hi && Tiles(B, lo, hi)
    ensures Pages(B) == hi - lo
    decreases hi - lo
  {
    if lo == hi {
      assert forall b :: b in B ==> false;
      assert B == {};
    } else {
      assert Covered(B, lo);
      var b :| b in B && Covers(b, lo);
      var C := B - {b};
      forall p | End(b) <= p < hi
        ensures Covered(C, p)
      {
        assert Covered(B, p);
        var c :| c in B && Covers(c, p);
        assert c in C;
      }
      forall c | c in C
        ensures End(b) <= c.start
      {
        assert Apart(b, c);
      }
      TilingConserves(C, End(b), hi);
      PagesRemove(B, b);
    }
  }
}
