/**
 Which pages of the heap are mapped: every block is wholly mapped or wholly unmapped, as its header's
 WAS_UNMAPPED flag says, and only free blocks are ever unmapped.
 */
module Mapping {
  import opened Sets
  import opened FreeLists
  import opened Tiling
  import opened HeapLaws

  ghost predicate MapAgrees(sz: map<nat, nat>, free: set<nat>, unmapped: set<nat>, mapped: set<nat>) {
    unmapped <= free && forall a, q :: Owns(sz, a, q) ==> (q in mapped <==> a !in unmapped)
  }

  /** Pages may pass between blocks whose flags are alike. */
  lemma MapRegrouped(sz: map<nat, nat>, free: set<nat>, unmapped: set<nat>, mapped: set<nat>,
                     sz': map<nat, nat>, free': set<nat>, unmapped': set<nat>)
    requires MapAgrees(sz, free, unmapped, mapped) && unmapped' <= free'
    requires forall a, q :: Owns(sz', a, q) ==> exists b :: Owns(sz, b, q) && (b in unmapped <==> a in unmapped')
    ensures MapAgrees(sz', free', unmapped', mapped)
  {
    forall a: nat, q: nat | Owns(sz', a, q)
      ensures q in mapped <==> a !in unmapped'
    {
      var b :| Owns(sz, b, q) && (b in unmapped <==> a in unmapped');
    }
  }

  /** Carving blocks out of a mapped block. */
  lemma CarvedMap(sz: map<nat, nat>, free: set<nat>, pages: set<nat>, unmapped: set<nat>, mapped: set<nat>,
                  b: nat, r: nat, n: nat)
    requires Tiles(sz, pages) && free <= sz.Keys && MapAgrees(sz, free, unmapped, mapped)
    requires b in free && b !in unmapped && b in sz && b <= r && r + n <= b + sz[b] && n >= 1
    ensures MapAgrees(CarvedSz(sz, b, r, n), CarvedFree(sz, free, b, r, n), unmapped, mapped)
  {
    forall a: nat, q: nat | Owns(CarvedSz(sz, b, r, n), a, q)
      ensures exists c :: Owns(sz, c, q) && (c in unmapped <==> a in unmapped)
    {
      if a == b || a == r || a == r + n {
        if b <= q < b + sz[b] {
          assert Owns(sz, b, q);
        } else {
          assert Owns(sz, a, q);
        }
      } else {
        assert Owns(sz, a, q);
      }
    }
    MapRegrouped(sz, free, unmapped, mapped, CarvedSz(sz, b, r, n), CarvedFree(sz, free, b, r, n), unmapped);
  }

  /** Chopping a mapped block into single ones in use. */
  lemma ChopsMap(sz: map<nat, nat>, free: set<nat>, unmapped: set<nat>, mapped: set<nat>, sz': map<nat, nat>, h: nat)
    requires free <= sz.Keys && MapAgrees(sz, free, unmapped, mapped) && h in sz && h !in unmapped && Chops(sz, sz', h)
    ensures MapAgrees(sz', free - {h}, unmapped, mapped)
  {
    forall a: nat, q: nat | Owns(sz', a, q)
      ensures exists c :: Owns(sz, c, q) && (c in unmapped <==> a in unmapped)
    {
      assert Owns(sz, if h <= a < h + sz[h] then h else a, q);
    }
    MapRegrouped(sz, free, unmapped, mapped, sz', free - {h}, unmapped);
  }

  /** A block absorbs its successor whose flag is like its own. */
  lemma MergedMap(sz: map<nat, nat>, free: set<nat>, unmapped: set<nat>, mapped: set<nat>, h: nat, free': set<nat>)
    requires MapAgrees(sz, free, unmapped, mapped) && h in sz && h + sz[h] in sz && sz[h] > 0
    requires h in unmapped <==> h + sz[h] in unmapped
    requires unmapped - {h + sz[h]} <= free'
    ensures MapAgrees(Merged(sz, h), free', unmapped - {h + sz[h]}, mapped)
  {
    var next := h + sz[h];
    forall a: nat, q: nat | Owns(Merged(sz, h), a, q)
      ensures exists c :: Owns(sz, c, q) && (c in unmapped <==> a in unmapped - {next})
    {
      assert Owns(sz, if a == h && q >= next then next else a, q);
    }
    MapRegrouped(sz, free, unmapped, mapped, Merged(sz, h), free', unmapped - {next});
  }

  /** Freeing h joins it with its successor: free, mapped, and not too long together. */
  ghost predicate NextJoins(sz: map<nat, nat>, free: set<nat>, unmapped: set<nat>, maxBlocks: nat, h: nat) {
    && h in sz && h + sz[h] in sz && h + sz[h] in free && h + sz[h] !in unmapped
    && sz[h] + sz[h + sz[h]] <= maxBlocks
  }

  /** Freeing h joins it with the block p before it. */
  ghost predicate PrevJoins(sz: map<nat, nat>, free: set<nat>, unmapped: set<nat>, maxBlocks: nat, h: nat, p: nat) {
    && h in sz && p in sz && p in free && p + sz[p] == h && p !in unmapped
    && sz[p] + sz[h] <= maxBlocks
  }

  ghost function NextJoinedSz(sz: map<nat, nat>, free: set<nat>, unmapped: set<nat>, maxBlocks: nat, h: nat)
    : map<nat, nat>
  {
    if NextJoins(sz, free, unmapped, maxBlocks, h) then Merged(sz, h) else sz
  }

  ghost function NextJoinedFree(sz: map<nat, nat>, free: set<nat>, unmapped: set<nat>, maxBlocks: nat, h: nat)
    : set<nat>
  {
    if NextJoins(sz, free, unmapped, maxBlocks, h) then free - {h + sz[h]} else free
  }

  /** The blocks after h was freed: joined with its successor if that can be, and then with its predecessor. */
  ghost predicate Freed(sz: map<nat, nat>, free: set<nat>, unmapped: set<nat>, maxBlocks: nat, h: nat,
                        sz': map<nat, nat>, free': set<nat>) {
    FreedNext(NextJoinedSz(sz, free, unmapped, maxBlocks, h), NextJoinedFree(sz, free, unmapped, maxBlocks, h),
              unmapped, maxBlocks, h, sz', free')
  }

  ghost predicate FreedNext(sz: map<nat, nat>, free: set<nat>, unmapped: set<nat>, maxBlocks: nat, h: nat,
                            sz': map<nat, nat>, free': set<nat>) {
    if exists p :: PrevJoins(sz, free, unmapped, maxBlocks, h, p)
    then exists p :: PrevJoins(sz, free, unmapped, maxBlocks, h, p) && sz' == Merged(sz, p) && free' == free
    else sz' == sz && free' == free + {h}
  }

  lemma FreedWith(sz: map<nat, nat>, free: set<nat>, unmapped: set<nat>, maxBlocks: nat, h: nat, p: nat)
    requires PrevJoins(sz, free, unmapped, maxBlocks, h, p)
    ensures FreedNext(sz, free, unmapped, maxBlocks, h, Merged(sz, p), free)
  {
  }

  lemma FreedAlone(sz: map<nat, nat>, free: set<nat>, unmapped: set<nat>, maxBlocks: nat, pages: set<nat>, h: nat,
                   p: nat)
    requires Tiles(sz, pages) && h in sz && free <= sz.Keys
    requires p != 0 ==> p in sz && p in free && p + sz[p] == h && (p in unmapped || sz[h] + sz[p] > maxBlocks)
    requires p == 0 ==> forall a :: a in free && a in sz && a < h ==> a + sz[a] != h
    ensures FreedNext(sz, free, unmapped, maxBlocks, h, sz, free + {h})
  {
    forall a | a in sz && a + sz[a] == h
      ensures p != 0 && p in sz && p + sz[p] == h ==> a == p
    {
      TilesPositive(sz, pages, a);
    }
  }

  /** Of two free blocks, one mapped and one not, the one that is not longer gives way to the other; the first if
      they are equally long. */
  ghost function GivesWay(sz: map<nat, nat>, h: nat, next: nat): nat
    requires h in sz && next in sz
  {
    if sz[h] > sz[next] then next else h
  }

  ghost predicate Alike(unmapped: set<nat>, h: nat, next: nat) {
    h in unmapped <==> next in unmapped
  }

  /** The flags after one block has given way. */
  ghost function UnmappedAlike(sz: map<nat, nat>, unmapped: set<nat>, h: nat, next: nat): set<nat>
    requires h in sz && next in sz
  {
    var g := GivesWay(sz, h, next);
    if Alike(unmapped, h, next) then unmapped
    else if g in unmapped then unmapped - {g} else unmapped + {g}
  }

  /** The mapped pages after one block has given way. */
  ghost function MappedAlike(sz: map<nat, nat>, unmapped: set<nat>, mapped: set<nat>, h: nat, next: nat): set<nat>
    requires h in sz && next in sz
  {
    var g := GivesWay(sz, h, next);
    if Alike(unmapped, h, next) then mapped
    else if g in unmapped then mapped + Section(g, sz[g]) else mapped - Section(g, sz[g])
  }

  /** The blocks, which of them are free, which are unmapped, and the pages that are mapped. */
  datatype Layout = Layout(sz: map<nat, nat>, free: set<nat>, unmapped: set<nat>, mapped: set<nat>)

  /** The free block h absorbs its free successor. */
  ghost predicate MergeStep(a: Layout, b: Layout, maxBlocks: nat, h: nat) {
    && h in a.free && h in a.sz && Mergeable(a.sz, a.free, maxBlocks, h)
    && var next := h + a.sz[h];
       && b.sz == Merged(a.sz, h) && b.free == a.free - {next}
       && b.unmapped == UnmappedAlike(a.sz, a.unmapped, h, next) - {next}
       && b.mapped == MappedAlike(a.sz, a.unmapped, a.mapped, h, next)
  }

  /** Each layout but the first is a merge of two adjacent free blocks away from the one before. */
  ghost predicate MergeRun(trace: seq<Layout>, maxBlocks: nat) {
    |trace| > 0 && forall j: nat :: j + 1 < |trace| ==> MergesTo(trace[j], trace[j + 1], maxBlocks)
  }

  ghost predicate MergesTo(a: Layout, b: Layout, maxBlocks: nat) {
    exists h :: MergeStep(a, b, maxBlocks, h)
  }

  lemma MergeRunMore(trace: seq<Layout>, maxBlocks: nat, b: Layout, h: nat)
    requires MergeRun(trace, maxBlocks) && MergeStep(trace[|trace| - 1], b, maxBlocks, h)
    ensures MergeRun(trace + [b], maxBlocks)
  {
    hide MergeStep;
    forall j: nat | j + 1 < |trace + [b]|
      ensures MergesTo((trace + [b])[j], (trace + [b])[j + 1], maxBlocks)
    {
      if j + 1 < |trace| { assert MergesTo(trace[j], trace[j + 1], maxBlocks); }
    }
  }

  lemma NothingUnmapped(a: Layout, b: Layout, maxBlocks: nat, h: nat)
    requires MergeStep(a, b, maxBlocks, h)
    ensures a.unmapped == {} ==> b.unmapped == {}
  {
  }

  /** A merged block is mapped as the longer of its parts was, and at most half of its pages are mapped or
      unmapped for it. */
  lemma FewPagesChange(a: Layout, b: Layout, maxBlocks: nat, h: nat)
    requires MergeStep(a, b, maxBlocks, h) && a.sz[h] > 0
    ensures var next := h + a.sz[h];
            && (a.sz[h] > a.sz[next] ==> (h in b.unmapped <==> h in a.unmapped))
            && (a.sz[h] <= a.sz[next] ==> (h in b.unmapped <==> next in a.unmapped))
    ensures 2 * |a.mapped - b.mapped| <= b.sz[h] && 2 * |b.mapped - a.mapped| <= b.sz[h]
    ensures a.mapped <= b.mapped || b.mapped <= a.mapped
  {
    hide Section;
    var next := h + a.sz[h];
    var g := GivesWay(a.sz, h, next);
    SectionSize(g, a.sz[g]);
    FewChange(a.mapped, Section(g, a.sz[g]));
  }

  lemma FewChange(mapped: set<nat>, part: set<nat>)
    ensures |(mapped + part) - mapped| <= |part| && |mapped - (mapped - part)| <= |part|
    ensures |mapped - (mapped + part)| == 0 && |(mapped - part) - mapped| == 0 && |mapped - mapped| == 0
  {
    SubsetSize((mapped + part) - mapped, part);
    SubsetSize(mapped - (mapped - part), part);
    assert mapped - (mapped + part) == {} && (mapped - part) - mapped == {} && mapped - mapped == {};
  }

  /** A new section is mapped. */
  lemma FreshMap(sz: map<nat, nat>, free: set<nat>, pages: set<nat>, unmapped: set<nat>, mapped: set<nat>, p: nat,
                 n: nat)
    requires Tiles(sz, pages) && free <= sz.Keys && MapAgrees(sz, free, unmapped, mapped) && p !in sz
    requires forall q :: p <= q < p + n ==> q !in pages
    ensures MapAgrees(sz[p := n], free, unmapped, mapped + Section(p, n))
  {
    SectionMembers(p, n);
    forall a: nat, q: nat | Owns(sz[p := n], a, q)
      ensures q in mapped + Section(p, n) <==> a !in unmapped
    {
      if a != p {
        assert Owns(sz, a, q);
      }
    }
  }

  /** GC_remap of a block. */
  lemma Remapped(sz: map<nat, nat>, free: set<nat>, pages: set<nat>, unmapped: set<nat>, mapped: set<nat>, b: nat)
    requires Tiles(sz, pages) && b in sz && MapAgrees(sz, free, unmapped, mapped)
    ensures MapAgrees(sz, free, unmapped - {b}, mapped + Section(b, sz[b]))
  {
    SectionMembers(b, sz[b]);
    forall a: nat, q: nat | Owns(sz, a, q)
      ensures q in mapped + Section(b, sz[b]) <==> a !in unmapped - {b}
    {
      if q in Section(b, sz[b]) {
        OneOwner(sz, pages, a, b, q);
      }
    }
  }

  /** GC_unmap of a free block. */
  lemma Unmapped(sz: map<nat, nat>, free: set<nat>, pages: set<nat>, unmapped: set<nat>, mapped: set<nat>, b: nat)
    requires Tiles(sz, pages) && b in sz && b in free && MapAgrees(sz, free, unmapped, mapped)
    ensures MapAgrees(sz, free, unmapped + {b}, mapped - Section(b, sz[b]))
  {
    SectionMembers(b, sz[b]);
    forall a: nat, q: nat | Owns(sz, a, q)
      ensures q in mapped - Section(b, sz[b]) <==> a !in unmapped + {b}
    {
      if q in Section(b, sz[b]) {
        OneOwner(sz, pages, a, b, q);
      }
    }
  }

  /** Blocks may become free. */
  lemma FreedMap(sz: map<nat, nat>, free: set<nat>, unmapped: set<nat>, mapped: set<nat>, h: nat)
    requires MapAgrees(sz, free, unmapped, mapped)
    ensures MapAgrees(sz, free + {h}, unmapped, mapped)
  {
  }

  lemma UnmappedFree(sz: map<nat, nat>, free: set<nat>, unmapped: set<nat>, mapped: set<nat>)
    requires MapAgrees(sz, free, unmapped, mapped)
    ensures unmapped <= free
  {
  }

  lemma FreeInstalled(sz: map<nat, nat>, free: set<nat>, on: map<nat, nat>)
    requires Placed(sz, free, on, 0)
    ensures free <= sz.Keys
  {
  }

  /** Pages in use are mapped. */
  lemma UsedMapped(sz: map<nat, nat>, free: set<nat>, pages: set<nat>, unmapped: set<nat>, mapped: set<nat>)
    requires MapAgrees(sz, free, unmapped, mapped)
    ensures UsedPages(sz, free, pages) <= mapped
  {
    forall p | p in UsedPages(sz, free, pages)
      ensures p in mapped
    {
      var a :| a !in free && Owns(sz, a, p);
    }
  }

  /** Every free block is on one of the lists gone through. */
  lemma UnmappedAll(sz: map<nat, nat>, free: set<nat>, on: map<nat, nat>, unmapped: set<nat>, aged: set<nat>)
    requires Placed(sz, free, on, 0)
    requires forall a :: a in free && a in aged && a in sz && ListFor(sz[a]) <= N_HBLK_FLS ==> a in unmapped
    ensures free * aged <= unmapped
  {
  }

  /** A list has all free blocks of its lengths. */
  lemma ListWhole(sz: map<nat, nat>, free: set<nat>, f: FreeLists.Links, i: nat)
    requires LinksOk(sz, f) && Placed(sz, free, f.on, 0) && i < |f.lists|
    ensures forall a :: a in free && a in sz && ListFor(sz[a]) == i ==> a in f.lists[i]
  {
  }

  /** In a heap below the signed limit every adjacent free pair can be merged. */
  lemma UnmergeableNoAdjacent(sz: map<nat, nat>, free: set<nat>, on: map<nat, nat>, pages: set<nat>, maxBlocks: nat)
    requires Tiles(sz, pages) && Placed(sz, free, on, 0)
    requires forall a :: a in free && a in sz ==> !Mergeable(sz, free, maxBlocks, a)
    ensures |pages| <= maxBlocks ==> NoAdjacent(sz, free)
  {
    if |pages| <= maxBlocks {
      forall a | a in free && a in sz
        ensures a + sz[a] !in free
      {
        if a + sz[a] in free {
          MergedFits(sz, pages, a);
          assert Mergeable(sz, free, maxBlocks, a);
        }
      }
    }
  }

  /** The heap without blocks. */
  lemma EmptyHeap(f: FreeLists.Links, maxBlocks: nat)
    requires f.next == map[] && f.prev == map[] && f.on == map[] && |f.head| == |f.bytes| == |f.lists|
    requires forall i :: 0 <= i < |f.lists| ==> f.lists[i] == [] && f.head[i] == 0 && f.bytes[i] == 0
    ensures LinksOk(map[], f) && Tiles(map[], {}) && Placed(map[], {}, f.on, 0) && Short(map[], maxBlocks)
    ensures MapAgrees(map[], {}, {}, {}) && Total(f.bytes) == 0
  {
    TotalZero(f.bytes);
  }
}
