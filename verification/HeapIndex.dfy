/**
 The header index as the index of the allocator's blocks: what each change of the blocks does to the
 headers and forwarding counts.  Lengths are in pages; a header's size is in bytes.
 */
module HeapIndex {
  import opened Wrappers
  import opened Tiling
  import opened HeapLaws
  import PI = PageIndex
  import HI = HeaderIndex

  /** The index has exactly the blocks of sz, those in `free` being free. */
  ghost predicate Indexes(ix: PI.Levels, sz: map<nat, nat>, free: set<nat>) {
    && PI.Shaped(ix) && PI.Good(ix)
    && (forall p: nat :: PI.At(ix, p).Header? <==> p in sz)
    && (forall p: nat :: p in sz ==> PI.Pages(PI.At(ix, p).sz) == sz[p] && (PI.At(ix, p).free <==> p in free))
  }

  lemma SplitIndexed(ix: PI.Levels, sz: map<nat, nat>, free: set<nat>, h: nat, n: nat, ix': PI.Levels)
    requires Indexes(ix, sz, free) && h in sz && h in free && 0 < n < sz[h] && PI.Shaped(ix') && PI.Good(ix')
    requires forall p: nat :: PI.At(ix', p) == if p == h then PI.Header(4096 * n, true)
                                               else if p == h + n then PI.Header(PI.At(ix, h).sz - 4096 * n, true)
                                               else PI.At(ix, p)
    ensures Indexes(ix', sz[h := n][h + n := sz[h] - n], free + {h + n})
  {
    hide PI.At, PI.Pages, PI.Good, PI.SizeOk;
    PI.FreeSize(ix, h);
    PI.PagesExact(PI.At(ix, h).sz);
    PI.PagesOfWhole(n, sz[h] - n);
  }

  lemma MergedIndexed(ix: PI.Levels, sz: map<nat, nat>, free: set<nat>, h: nat, ix': PI.Levels)
    requires Indexes(ix, sz, free) && h in sz && h in free && h + sz[h] in sz && h + sz[h] in free
    requires PI.Shaped(ix') && PI.Good(ix')
    requires forall p: nat :: PI.At(ix', p) == if p == h then PI.Header(PI.At(ix, h).sz + PI.At(ix, h + sz[h]).sz, true)
                                               else if p == h + sz[h] then PI.Nil else PI.At(ix, p)
    ensures Indexes(ix', Merged(sz, h), free - {h + sz[h]})
  {
    hide PI.At, PI.Pages, PI.Good, PI.SizeOk;
    var n := h + sz[h];
    PI.FreeSize(ix, h);
    PI.FreeSize(ix, n);
    PI.PagesExact(PI.At(ix, h).sz);
    PI.PagesExact(PI.At(ix, n).sz);
    PI.PagesOfWhole(sz[h], sz[n]);
  }

  lemma AllocatedIndexed(ix: PI.Levels, sz: map<nat, nat>, free: set<nat>, h: nat, bytes: nat, ix': PI.Levels)
    requires Indexes(ix, sz, free) && h in sz && PI.Good(ix') && PI.Pages(bytes) == sz[h]
    requires PI.Counted(ix, ix', h, PI.Header(bytes, false), sz[h])
    ensures Indexes(ix', sz, free - {h})
  {
    hide PI.At, PI.Pages;
    forall p: nat | h < p < h + sz[h]
      ensures !PI.At(ix, p).Header?
    {
      assert PI.Inner(ix, h, p);
      PI.NoHeaderInside(ix, h, p);
    }
  }

  lemma ReleasedIndexed(ix: PI.Levels, sz: map<nat, nat>, free: set<nat>, h: nat, ix': PI.Levels)
    requires Indexes(ix, sz, free) && h in sz && PI.Good(ix')
    requires PI.Uncounted(ix, ix', h, PI.Header(4096 * sz[h], true), sz[h])
    ensures Indexes(ix', sz, free + {h})
  {
    hide PI.At, PI.Pages;
    PI.PagesOfWhole(sz[h], 0);
    forall p: nat | h < p < h + sz[h]
      ensures !PI.At(ix, p).Header?
    {
      assert PI.Inner(ix, h, p);
      PI.NoHeaderInside(ix, h, p);
    }
  }

  lemma AddedIndexed(ix: PI.Levels, sz: map<nat, nat>, free: set<nat>, h: nat, n: nat, ix': PI.Levels)
    requires Indexes(ix, sz, free) && h !in sz && PI.Good(ix') && PI.SetTo(ix, ix', h, PI.Header(4096 * n, true))
    ensures Indexes(ix', sz[h := n], free + {h})
  {
    hide PI.At, PI.Pages;
    PI.PagesOfWhole(n, 0);
  }

  /** Pages outside the heap are unused in the index. */
  lemma OutsideUnused(ix: PI.Levels, sz: map<nat, nat>, free: set<nat>, pages: set<nat>, h: nat, n: nat)
    requires Indexes(ix, sz, free) && Tiles(sz, pages) && forall q :: h <= q < h + n ==> q !in pages
    ensures PI.Unused(ix, h, n)
  {
    hide PI.At, PI.Pages;
    forall p: nat | h <= p < h + n
      ensures !PI.At(ix, p).Header? && forall b: nat :: !PI.Inner(ix, b, p)
    {
      assert p !in pages;
      assert !Owns(sz, p, p);
      assert forall b: nat :: PI.Inner(ix, b, p) ==> Owns(sz, b, p);
    }
  }

  /** A new index has no blocks. */
  lemma EmptyIndexed()
    ensures Indexes(map[], map[], {})
  {
  }

  lemma OneEnding(ix: PI.Levels, sz: map<nat, nat>, free: set<nat>, a: nat, b: nat, h: nat)
    requires Indexes(ix, sz, free) && a in sz && b in sz && a < h && b < h && a + sz[a] == h && b + sz[b] == h
    ensures a == b
  {
    hide PI.At, PI.Pages, PI.Good;
    if a < b {
      PI.BlocksApart(ix, a, b);
    } else if b < a {
      PI.BlocksApart(ix, b, a);
    }
  }

  // ---------- the operations

  /** A free block becomes two. */
  method SplitHeaders(headers: HI.Index, ghost sz: map<nat, nat>, ghost free: set<nat>, h: nat, n: nat)
    requires headers.Valid() && Indexes(headers.ix, sz, free) && h in sz && h in free && 0 < n < sz[h]
    modifies headers
    ensures headers.Valid() && Indexes(headers.ix, sz[h := n][h + n := sz[h] - n], free + {h + n})
  {
    hide PI.At, PI.Pages, PI.Good, HI.Index.Sound;
    ghost var ix := headers.ix;
    var ok := headers.SplitFree(h, n, true, true);
    PI.GoodShaped(headers.ix);
    SplitIndexed(ix, sz, free, h, n, headers.ix);
  }

  /** Two adjacent free blocks become one. */
  method MergeHeaders(headers: HI.Index, ghost sz: map<nat, nat>, ghost free: set<nat>, h: nat)
    requires headers.Valid() && Indexes(headers.ix, sz, free)
    requires h in sz && h in free && h + sz[h] in sz && h + sz[h] in free
    modifies headers
    ensures headers.Valid() && Indexes(headers.ix, Merged(sz, h), free - {h + sz[h]})
  {
    hide PI.At, PI.Pages, PI.Good, HI.Index.Sound;
    ghost var ix := headers.ix;
    headers.MergeFree(h);
    PI.GoodShaped(headers.ix);
    MergedIndexed(ix, sz, free, h, headers.ix);
  }

  /** A free block of n pages is handed out. */
  method AllocateHeaders(headers: HI.Index, ghost sz: map<nat, nat>, ghost free: set<nat>, h: nat, n: nat)
    requires headers.Valid() && Indexes(headers.ix, sz, free) && h in sz && h in free && sz[h] == n > 0
    modifies headers
    ensures headers.Valid() && Indexes(headers.ix, sz, free - {h})
  {
    hide PI.At, PI.Pages, PI.Good, PI.KeysOf, PI.Lacking, HI.Index.Sound;
    ghost var ix := headers.ix;
    PI.WholePages(n);
    PI.EnoughKeys(h, h + n, headers.ix.Keys);
    var ok := headers.Allocate(h, 4096 * n, n);
    AllocatedIndexed(ix, sz, free, h, 4096 * n, headers.ix);
  }

  /** A free block becomes single blocks in use, one after the other. */
  method ChopHeaders(headers: HI.Index, ghost sz: map<nat, nat>, ghost free: set<nat>, h: nat, n: nat)
    requires headers.Valid() && Indexes(headers.ix, sz, free) && h in sz && h in free && sz[h] == n > 0
    requires forall p :: h < p < h + n ==> p !in free
    modifies headers
    ensures headers.Valid() && Indexes(headers.ix, Chopped(sz, h, n), free - {h})
  {
    hide Indexes, HI.Index.Valid;
    ghost var szNow: map<nat, nat>, freeNow: set<nat> := sz, free;
    var j := 0;
    assert sz == Chopped(sz, h, 0) && sz == sz[h := n];
    while j + 1 < n
      invariant j < n && headers.Valid() && Indexes(headers.ix, szNow, freeNow)
      invariant szNow == Chopped(sz, h, j)[h + j := n - j] && freeNow == free - {h} + {h + j}
    {
      SplitHeaders(headers, szNow, freeNow, h + j, 1);
      SetTwice(Chopped(sz, h, j), h + j, n - j, 1);
      szNow, freeNow := szNow[h + j := 1][h + j + 1 := n - j - 1], freeNow + {h + j + 1};
      AllocateHeaders(headers, szNow, freeNow, h + j, 1);
      freeNow := freeNow - {h + j};
      assert freeNow == free - {h} + {h + j + 1};
      j := j + 1;
    }
    AllocateHeaders(headers, szNow, freeNow, h + j, 1);
    assert freeNow - {h + j} == free - {h};
  }

  /** A block is freed. */
  method ReleaseHeaders(headers: HI.Index, ghost sz: map<nat, nat>, ghost free: set<nat>, h: nat)
    requires headers.Valid() && Indexes(headers.ix, sz, free) && h in sz && h !in free
    modifies headers
    ensures headers.Valid() && Indexes(headers.ix, sz, free + {h})
  {
    hide PI.At, PI.Pages, PI.Good, HI.Index.Sound;
    ghost var ix := headers.ix;
    headers.Release(h);
    ReleasedIndexed(ix, sz, free, h, headers.ix);
  }

  /** A section of n pages joins the heap. */
  method AddHeaders(headers: HI.Index, ghost sz: map<nat, nat>, ghost free: set<nat>, ghost pages: set<nat>, h: nat,
                    n: nat)
    requires headers.Valid() && Indexes(headers.ix, sz, free) && Tiles(sz, pages) && h !in sz && n > 0
    requires forall q :: h <= q < h + n ==> q !in pages
    modifies headers
    ensures headers.Valid() && Indexes(headers.ix, sz[h := n], free + {h})
  {
    hide PI.At, PI.Pages, PI.Good, HI.Index.Sound;
    ghost var ix := headers.ix;
    PI.WholePages(n);
    OutsideUnused(ix, sz, free, pages, h, n);
    var ok := headers.AddBlock(h, 4096 * n, true, true);
    AddedIndexed(ix, sz, free, h, n, headers.ix);
  }

  /** The block ending just before h, or 0. */
  method EndingAt(headers: HI.Index, ghost sz: map<nat, nat>, ghost free: set<nat>, h: nat) returns (p: nat)
    requires headers.Valid() && Indexes(headers.ix, sz, free) && h in sz && 0 !in sz
    ensures p != 0 ==> p in sz && p < h && p + sz[p] == h
    ensures forall a :: a in sz && a < h && a + sz[a] == h ==> a == p
  {
    forall b: nat
      ensures !PI.Inner(headers.ix, b, h)
    {
      if PI.Inner(headers.ix, b, h) {
        PI.NoHeaderInside(headers.ix, b, h);
      }
    }
    var r := headers.BlockEndingAt(h);
    p := if r.Some? then r.value else 0;
    if p != 0 {
      forall a | a in sz && a < h && a + sz[a] == h
        ensures a == p
      {
        OneEnding(headers.ix, sz, free, a, p, h);
      }
    }
  }
}
