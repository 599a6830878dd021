/**
 The heap block allocator of tool/gec/backend/c/boehm_gc/allchblk.c, with the heap growth step
 of alloc.c.  Sizes and addresses are counted in heap blocks (HBLKSIZE bytes); address 0 is the
 null link.
 */
module HeapBlocks {
  import opened FreeLists
  import opened Tiling
  import opened HeapLaws
  import opened Mapping
  import opened HeapIndex
  import HI = HeaderIndex
  import BL = BlackList

  /** An operation on the heap, with the black lists and limits in force at the time. */
  datatype Operation =
    | Allocate(bl: BL.Lists, blLimit: nat, req: Request, splitLimit: nat, avoidRemap: bool)
    | Free(h: nat)
    | Grow(p: nat, n: nat)
    | Unmap(aged: set<nat>)
    | Merge

  /** What the operations see of the heap: its blocks, the free lists, its pages and the count of useless blocks. */
  datatype View = View(at: Layout, lists: seq<seq<nat>>, pages: set<nat>, count: nat)

  predicate Askable(bl: BL.Lists, req: Request, splitLimit: nat) {
    && req.blocks >= 1 && splitLimit <= N_HBLK_FLS && bl.wordSize > 0 && |bl.oldStack| > 0
    && |bl.oldNormal| == |bl.incompleteNormal| == |bl.oldStack| == |bl.incompleteStack|
  }

  /** An allocation with result r. */
  ghost predicate Allocates(v: View, v': View, bl: BL.Lists, blLimit: nat, asked: Request, splitLimit: nat,
                            avoidRemap: bool, r: nat)
    requires BL.Good(bl)
  {
    var req := Avoiding(asked, avoidRemap, v.at.unmapped);
    && v'.pages == v.pages && (r == 0 <==> NoneFound(bl, blLimit, req, splitLimit + 1, v.at.sz, v.at.free))
    && if r == 0 then
         && v'.at.unmapped == v.at.unmapped
         && DroppedSince(bl, blLimit, req, v.at.sz, v.at.free, v.count, v'.at.sz, v'.at.free, v'.count)
       else exists b :: GivenFrom(v, v', bl, blLimit, req, splitLimit, r, b)
  }

  ghost predicate GivenFrom(v: View, v': View, bl: BL.Lists, blLimit: nat, req: Request, splitLimit: nat, r: nat,
                            b: nat)
    requires BL.Good(bl)
  {
    && b in v.at.sz && Chosen(bl, blLimit, req, splitLimit + 1, v.at.sz, v.at.free, v.lists, b)
    && Served(bl, blLimit, req, v.at.sz, v.at.free, v.count, v'.at.sz, v'.at.free, v'.count, r, b)
    && v'.at.unmapped == v.at.unmapped - {b}
  }

  /** Freeing h, which aborts if h is free already. */
  ghost predicate Frees(v: View, v': View, maxBlocks: nat, h: nat, aborted: bool) {
    && (aborted <==> h in v.at.free) && v'.pages == v.pages && v'.at.unmapped == v.at.unmapped
    && if aborted then v' == v else Freed(v.at.sz, v.at.free, v.at.unmapped, maxBlocks, h, v'.at.sz, v'.at.free)
  }

  /** Growing by n pages at p, of which the pages 0 and 1 are not used; aborts if that is too long for a block. */
  ghost predicate Grows(v: View, v': View, maxBlocks: nat, p: nat, n: nat, aborted: bool) {
    var start := if p < 2 then 2 else p;
    && (aborted <==> p + n - start > maxBlocks) && (aborted ==> v' == v)
    && (!aborted ==> forall q :: q in v'.pages <==> q in v.pages || start <= q < p + n)
    && (!aborted ==> v'.at.unmapped == v.at.unmapped)
    && (!aborted && p + n > 2 ==>
          Freed(v.at.sz[start := p + n - start], v.at.free, v.at.unmapped, maxBlocks, start, v'.at.sz, v'.at.free))
    && (!aborted && p + n <= 2 ==> v'.at.sz == v.at.sz && v'.at.free == v.at.free)
  }

  ghost predicate MergesAll(v: View, v': View, maxBlocks: nat, trace: seq<Layout>) {
    && MergeRun(trace, maxBlocks) && trace[0] == v.at && trace[|trace| - 1] == v'.at && v'.pages == v.pages
    && forall a :: a in v'.at.free && a in v'.at.sz ==> !Mergeable(v'.at.sz, v'.at.free, maxBlocks, a)
  }

  /** What an operation does, and its result.  Freeing an address without a block, or growing by pages that are
      already in the heap, is outside what callers do and is skipped. */
  ghost predicate Does(op: Operation, v: View, v': View, maxBlocks: nat, aborted: bool, r: nat) {
    match op
    case Allocate(bl, blLimit, req, splitLimit, avoidRemap) =>
      !aborted && if Askable(bl, req, splitLimit) then Allocates(v, v', bl, blLimit, req, splitLimit, avoidRemap, r)
                  else v' == v && r == 0
    case Free(h) =>
      if h in v.at.sz then Frees(v, v', maxBlocks, h, aborted) else v' == v && !aborted
    case Grow(p, n) =>
      if n >= 1 && forall q :: p <= q < p + n ==> q !in v.pages then Grows(v, v', maxBlocks, p, n, aborted)
      else v' == v && !aborted
    case Unmap(aged) =>
      !aborted && v'.at.sz == v.at.sz && v'.at.free == v.at.free && v'.pages == v.pages
      && v'.at.unmapped == v.at.unmapped + v.at.free * aged
    case Merge =>
      !aborted && exists trace :: MergesAll(v, v', maxBlocks, trace)
  }

  /** An abort has no result. */
  lemma AbortsWith(op: Operation, v: View, v': View, maxBlocks: nat, r: nat)
    requires Does(op, v, v', maxBlocks, true, r)
    ensures Does(op, v, v', maxBlocks, true, 0)
  {
  }

  /** A run of operations: the views before and after each, and the results, up to an abort. */
  ghost predicate Runs(ops: seq<Operation>, views: seq<View>, results: seq<nat>, maxBlocks: nat) {
    && |views| == |results| + 1 && |results| <= |ops|
    && forall i: nat :: i < |results| ==> Does(ops[i], views[i], views[i + 1], maxBlocks, false, results[i])
  }

  class Heap {
    // Header fields, by block address.  The installed headers are the keys of hbSz.
    var hbSz: map<nat, nat>
    var hbNext: map<nat, nat>
    var hbPrev: map<nat, nat>
    var hbFree: set<nat>          // FREE_BLK is set
    var flHead: seq<nat>          // GC_hblkfreelist
    var freeBytes: seq<nat>       // GC_free_bytes
    var largeFree: nat            // GC_large_free_bytes
    var heapSize: nat             // GC_heapsize
    var dropCount: nat            // how often a completely black-listed block was met
    var hbUnmapped: set<nat>      // WAS_UNMAPPED is set
    const headers: HI.Index       // the index from pages to block headers
    const findLeak: bool          // GC_find_leak
    const maxBlocks: nat          // the longest block whose byte size is a positive signed word

    ghost var lists: seq<seq<nat>>   // the free lists as sequences
    ghost var on: map<nat, nat>      // which list each listed block is on
    ghost var pages: set<nat>        // the pages of all heap sections
    ghost var mapped: set<nat>       // the pages that are mapped
    ghost var tidy: bool             // nothing was unmapped since the heap last had no unmapped blocks and was merged

    ghost function Links(): Links
      reads this
    {
      FreeLists.Links(hbNext, hbPrev, flHead, freeBytes, lists, on)
    }

    ghost predicate ListsOk()
      reads this
    {
      |lists| == N_HBLK_FLS + 1 && LinksOk(hbSz, Links())
    }

    /** Blocks tile the heap, and free blocks are on the right lists, x excepted. */
    ghost predicate ValidBut(x: nat)
      reads this
    {
      && ListsOk()
      && Tiles(hbSz, pages)
      && Placed(hbSz, hbFree, on, x)
      && Short(hbSz, maxBlocks) && maxBlocks >= 1
    }

    /** Every block is wholly mapped, or free and wholly unmapped, as its header says. */
    ghost predicate MapOk()
      reads this
    {
      MapAgrees(hbSz, hbFree, hbUnmapped, mapped)
    }

    /** The header index is that of the blocks, those in `free` being free. */
    ghost predicate IndexOk(free: set<nat>)
      reads this, headers
    {
      headers.Valid() && Indexes(headers.ix, hbSz, free)
    }

    ghost predicate Valid()
      reads this, headers
    {
      && ValidBut(0)
      && MapOk()
      && IndexOk(hbFree)
      && largeFree == Total(freeBytes)
      && heapSize == |pages|
    }

    /** GC_remove_from_fl_at: unlink h from list index. */
    method RemoveFromFlAt(h: nat, index: nat) returns (ghost k: nat)
      requires ListsOk() && h in on && on[h] == index
      modifies this`flHead, this`freeBytes, this`hbNext, this`hbPrev, this`lists, this`on
      ensures ListsOk()
      ensures k < |old(lists)[index]| && old(lists)[index][k] == h && h in hbSz
      ensures lists == old(lists)[index := Without(old(lists)[index], k)]
      ensures on == old(on) - {h}
      ensures Total(freeBytes) + hbSz[h] == Total(old(freeBytes))
    {
      hide LinksOk, Linked, Members, Sum, Total, Without;
      k := FreeLists.Listed(hbSz, Links(), h);
      RemovedOk(hbSz, Links(), index, k);
      TotalUpdate(freeBytes, index, freeBytes[index] - hbSz[h]);
      ghost var f := Removed(hbSz, Links(), index, k);
      var next, prev := hbNext[h], hbPrev[h];
      var head', next', prev' := flHead, hbNext, hbPrev;
      if prev == 0 {
        head' := head'[index := next];
      } else {
        next' := next'[prev := next];
      }
      var bytes' := freeBytes[index := freeBytes[index] - hbSz[h]];
      if next != 0 {
        prev' := prev'[next := prev];
      }
      assert f == FreeLists.Links(next', prev', head', bytes', f.lists, f.on);
      flHead, freeBytes, hbNext, hbPrev, lists, on := head', bytes', next', prev', f.lists, f.on;
    }

    /** GC_add_to_fl: put h at the front of the list for its length and mark it free. */
    method AddToFl(h: nat)
      requires ListsOk() && h in hbSz && h !in on && h != 0
      modifies this`flHead, this`freeBytes, this`hbNext, this`hbPrev, this`lists, this`on, this`hbFree
      ensures ListsOk()
      ensures on == old(on)[h := ListFor(hbSz[h])]
      ensures lists == old(lists)[ListFor(hbSz[h]) := [h] + old(lists)[ListFor(hbSz[h])]]
      ensures hbFree == old(hbFree) + {h}
      ensures Total(freeBytes) == Total(old(freeBytes)) + hbSz[h]
    {
      hide LinksOk, Linked, Members, Sum, Total;
      var index := ListFor(hbSz[h]);
      LinksShape(hbSz, Links());
      var second := flHead[index];
      ghost var f := Pushed(hbSz, Links(), index, h);
      PushedOk(hbSz, Links(), index, h);
      var bytes' := freeBytes[index := freeBytes[index] + hbSz[h]];
      var next' := hbNext[h := second];
      var prev' := if second != 0 then hbPrev[h := 0][second := h] else hbPrev[h := 0];
      TotalUpdate(freeBytes, index, freeBytes[index] + hbSz[h]);
      assert f == FreeLists.Links(next', prev', flHead[index := h], bytes', f.lists, f.on);
      flHead, freeBytes, hbNext, hbPrev, lists, on := flHead[index := h], bytes', next', prev', f.lists, f.on;
      hbFree := hbFree + {h};
    }

    /** GC_split_block: the part of h before n goes to its own list; the rest, n, takes h's
        place k on list index, which may be the wrong list for its length. */
    method SplitBlock(h: nat, n: nat, index: nat) returns (ghost k: nat)
      requires ValidBut(0) && IndexOk(hbFree) && h in on && h in hbSz && on[h] == index && h < n < h + hbSz[h]
      requires index <= N_HBLK_FLS
      modifies this`flHead, this`freeBytes, this`hbNext, this`hbPrev, this`lists, this`on, this`hbFree,
               this`hbSz, headers
      ensures ValidBut(n) && IndexOk(hbFree)
      ensures hbSz == old(hbSz)[h := n - h][n := h + old(hbSz)[h] - n]
      ensures hbFree == old(hbFree) + {n}
      ensures n in on && on[n] == index
      ensures ListsSplit(old(lists), lists, index, k, h, n)
      ensures Total(freeBytes) == Total(old(freeBytes))
    {
      hide LinksOk, Tiles, Placed, Short, Sum, Total, Replaced, Indexes, HI.Index.Valid;
      ListedFacts(hbSz, hbFree, on, pages, h);
      SplitHeaders(headers, hbSz, hbFree, h, n - h);
      assert h + (n - h) == n;
      TilesSplit(hbSz, pages, h, n - h);
      PlacedSplit(hbSz, hbFree, on, h, n, index);
      ShortSplit(hbSz, maxBlocks, h, n - h);
      k := ReplaceBySecondPart(h, n, index);
      AddToFl(h);
      hbFree := hbFree + {n};
      assert hbFree == old(hbFree) + {n};
    }

    /** The first half of GC_split_block: n takes h's place on list index. */
    method ReplaceBySecondPart(h: nat, n: nat, index: nat) returns (ghost k: nat)
      requires ListsOk() && h in on && h in hbSz && on[h] == index && h < n < h + hbSz[h] && n !in hbSz
      modifies this`flHead, this`freeBytes, this`hbNext, this`hbPrev, this`lists, this`on, this`hbSz
      ensures ListsOk()
      ensures hbSz == old(hbSz)[h := n - h][n := h + old(hbSz)[h] - n]
      ensures on == (old(on) - {h})[n := index]
      ensures k < |old(lists)[index]| && old(lists)[index][k] == h
      ensures lists == old(lists)[index := Replaced(old(lists)[index], k, n)]
      ensures Total(freeBytes) + (n - h) == Total(old(freeBytes))
    {
      hide LinksOk, Linked, Members, Sum, Total, Without, Replaced;
      k := FreeLists.Listed(hbSz, Links(), h);
      SplitOk(hbSz, Links(), index, k, n, n - h);
      ghost var f := Split(hbSz, Links(), index, k, n, n - h);
      var prev, next := hbPrev[h], hbNext[h];
      var next' := hbNext[n := next];
      var prev' := hbPrev[n := prev];
      var head' := flHead;
      if prev != 0 {
        next' := next'[prev := n];
      } else {
        head' := head'[index := n];
      }
      if next != 0 {
        prev' := prev'[next := n];
      }
      var bytes' := freeBytes[index := freeBytes[index] - (n - h)];
      TotalUpdate(freeBytes, index, freeBytes[index] - (n - h));
      assert f == FreeLists.Links(next', prev', head', bytes', f.lists, f.on);
      flHead, freeBytes, hbNext, hbPrev, lists, on := head', bytes', next', prev', f.lists, f.on;
      hbSz := hbSz[h := n - h][n := h + hbSz[h] - n];
    }

    /** GC_get_first_part: take h off list index, keep its first n blocks and free the rest. */
    method GetFirstPart(h: nat, n: nat, index: nat)
      requires ValidBut(h) && IndexOk(hbFree) && h in on && h in hbSz && on[h] == index && 1 <= n <= hbSz[h]
      requires h in hbFree
      modifies this`flHead, this`freeBytes, this`hbNext, this`hbPrev, this`lists, this`on, this`hbFree,
               this`hbSz, headers
      ensures ValidBut(h) && IndexOk(hbFree) && h !in on && h in hbFree
      ensures hbSz == CarvedSz(old(hbSz), h, h, n)
      ensures hbFree == old(hbFree) + (if n < old(hbSz)[h] then {h + n} else {})
      ensures Total(freeBytes) + n == Total(old(freeBytes))
    {
      hide LinksOk, Tiles, Placed, Short, Sum, Total, Indexes, HI.Index.Valid;
      var total := hbSz[h];
      PlacedFirstPart(hbSz, hbFree, on, pages, h, n);
      ghost var k := RemoveFromFlAt(h, index);
      if total == n {
        return;
      }
      SplitHeaders(headers, hbSz, hbFree, h, n);
      var rest := h + n;
      TilesSplit(hbSz, pages, h, n);
      ShortSplit(hbSz, maxBlocks, h, n);
      LinksAgree(hbSz, Links(), hbSz[h := n][rest := total - n]);
      hbSz := hbSz[h := n][rest := total - n];
      AddToFl(rest);
    }

    /** GC_remap: the block is mapped before it is used or split. */
    method Remap(b: nat)
      requires Tiles(hbSz, pages) && b in hbSz && MapOk()
      modifies this`hbUnmapped, this`mapped
      ensures MapOk() && hbUnmapped == old(hbUnmapped) - {b}
      ensures mapped == if b in old(hbUnmapped) then old(mapped) + Section(b, hbSz[b]) else old(mapped)
    {
      if b in hbUnmapped {
        Remapped(hbSz, hbFree, pages, hbUnmapped, mapped, b);
        mapped := mapped + Section(b, hbSz[b]);
        hbUnmapped := hbUnmapped - {b};
      }
    }

    /** Allocate n blocks at s inside the free block b of list index: the end of
        GC_allochblk_nth. */
    method AllocateAt(b: nat, s: nat, n: nat, index: nat)
      requires Valid() && b in on && b in hbSz && on[b] == index && b <= s && s + n <= b + hbSz[b] && n >= 1
      requires index <= N_HBLK_FLS
      modifies this`flHead, this`freeBytes, this`hbNext, this`hbPrev, this`lists, this`on, this`hbFree,
               this`hbSz, this`largeFree, this`hbUnmapped, this`mapped, headers
      ensures Valid() && hbUnmapped == old(hbUnmapped) - {b}
      ensures b in old(hbFree)
      ensures hbSz == CarvedSz(old(hbSz), b, s, n)
      ensures hbFree == CarvedFree(old(hbSz), old(hbFree), b, s, n)
      ensures largeFree + n == old(largeFree)
    {
      hide LinksOk, Tiles, Placed, Short, Sum, Total, CarvedSz, CarvedFree, MapAgrees, Indexes, HI.Index.Valid;
      ListedFacts(hbSz, hbFree, on, pages, b);
      Remap(b);
      CarvedMap(hbSz, hbFree, pages, hbUnmapped, mapped, b, s, n);
      Carve(b, s, n, index);
      largeFree := largeFree - n;
    }

    /** Split off what comes before s, take the first n blocks, and free the rest. */
    method Carve(b: nat, s: nat, n: nat, index: nat)
      requires ValidBut(0) && b in on && b in hbSz && on[b] == index && b <= s && s + n <= b + hbSz[b] && n >= 1
      requires IndexOk(hbFree) && index <= N_HBLK_FLS
      modifies this`flHead, this`freeBytes, this`hbNext, this`hbPrev, this`lists, this`on, this`hbFree,
               this`hbSz, headers
      ensures ValidBut(0) && IndexOk(hbFree)
      ensures hbSz == CarvedSz(old(hbSz), b, s, n)
      ensures hbFree == CarvedFree(old(hbSz), old(hbFree), b, s, n)
      ensures Total(freeBytes) + n == Total(old(freeBytes))
    {
      hide LinksOk, Tiles, Placed, Short, Sum, Total, CarvedSz, CarvedFree, Indexes, HI.Index.Valid;
      ListedFacts(hbSz, hbFree, on, pages, b);
      CarvedSteps(hbSz, hbFree, b, s, n);
      CarvedAt(hbSz, b, s, n);
      if s != b {
        ghost var k := SplitBlock(b, s, index);
      } else {
        PlacedExcept(hbSz, hbFree, on, b);
      }
      GetFirstPart(s, n, index);
      PlacedInUse(hbSz, hbFree, on, s);
      AllocateHeaders(headers, hbSz, hbFree, s, n);
      hbFree := hbFree - {s};
    }

    /** Drop a completely black-listed block: take it off its list and turn it into single
        blocks that count as in use. */
    method DropBlock(h: nat, index: nat) returns (ghost k: nat)
      requires Valid() && h in on && h in hbSz && on[h] == index && index <= N_HBLK_FLS && h !in hbUnmapped
      modifies this`flHead, this`freeBytes, this`hbNext, this`hbPrev, this`lists, this`on, this`hbFree,
               this`hbSz, this`largeFree, headers
      ensures Valid() && Chops(old(hbSz), hbSz, h) && largeFree + old(hbSz)[h] == old(largeFree)
      ensures k < |old(lists)[index]| && old(lists)[index][k] == h
      ensures lists == old(lists)[index := Without(old(lists)[index], k)]
      ensures hbFree == old(hbFree) - {h} && h in old(hbFree)
      ensures OnlyDropped(old(hbSz), old(hbFree), hbSz, hbFree)
      ensures old(NoAdjacent(hbSz, hbFree)) ==> NoAdjacent(hbSz, hbFree)
    {
      hide LinksOk, Tiles, Placed, Short, Sum, Total, Without, OnlyDropped, Chops, Chopped, NoAdjacent, Agree,
           MapAgrees,
           Indexes, HI.Index.Valid;
      ListedFacts(hbSz, hbFree, on, pages, h);
      var total := hbSz[h];
      ghost var chopped := Chopped(hbSz, h, total);
      ChopLaws(hbSz, hbFree, on, pages, h, maxBlocks);
      ChopsMap(hbSz, hbFree, hbUnmapped, mapped, chopped, h);
      InsideNotFree(hbSz, hbFree, pages, h);
      ChopHeaders(headers, hbSz, hbFree, h, total);
      k := UnlistAndChop(h, index);
      largeFree := largeFree - total;
    }

    /** Take h off its list and give each of its pages a header. */
    method UnlistAndChop(h: nat, index: nat) returns (ghost k: nat)
      requires ListsOk() && h in on && h in hbSz && on[h] == index && index <= N_HBLK_FLS
      requires Chops(hbSz, Chopped(hbSz, h, hbSz[h]), h)
      modifies this`flHead, this`freeBytes, this`hbNext, this`hbPrev, this`lists, this`on, this`hbFree, this`hbSz
      ensures ListsOk() && hbSz == Chopped(old(hbSz), h, old(hbSz)[h]) && hbFree == old(hbFree) - {h}
      ensures k < |old(lists)[index]| && old(lists)[index][k] == h
      ensures lists == old(lists)[index := Without(old(lists)[index], k)]
      ensures on == old(on) - {h}
      ensures Total(freeBytes) + old(hbSz)[h] == Total(old(freeBytes))
    {
      hide LinksOk, Sum, Total, Without, Chops, Chopped, Agree;
      ghost var chopped := Chopped(hbSz, h, hbSz[h]);
      k := RemoveFromFlAt(h, index);
      LinksShape(hbSz, Links());
      ChopsAgree(hbSz, chopped, on, h);
      LinksAgree(hbSz, Links(), chopped);
      hbSz := ChopUp(h, hbSz[h]);
      hbFree := hbFree - {h};
    }

    /** The lengths with a header for every page from h on. */
    method ChopUp(h: nat, total: nat) returns (sz: map<nat, nat>)
      ensures sz == Chopped(hbSz, h, total)
    {
      sz := hbSz;
      var j := 0;
      while j < total
        invariant j <= total && sz == Chopped(hbSz, h, j)
      {
        sz := sz[h + j := 1];
        j := j + 1;
      }
    }

    /** The next block on the list is large enough, smaller, and does not start black-listed. */
    method NextIsBetter(bl: BL.Lists, req: Request, h: nat) returns (better: bool)
      requires BL.Good(bl) && h in hbSz && h in hbNext && (hbNext[h] != 0 ==> hbNext[h] in hbSz) && req.blocks >= 1
      ensures better <==> hbNext[h] != 0 && req.blocks <= hbSz[hbNext[h]] < hbSz[h]
                          && !BL.Listed(bl, hbNext[h], req.blocks)
    {
      var next := hbNext[h];
      if next == 0 {
        return false;
      }
      var size := hbSz[next];
      if size < hbSz[h] && size >= req.blocks {
        var r := BL.IsBlackListed(bl, next, req.blocks);
        return r == 0;
      }
      return false;
    }

    /** Where to place the request in the free block h, if anywhere. */
    method Place(bl: BL.Lists, blLimit: nat, req: Request, h: nat) returns (found: bool, s: nat, allListed: bool)
      requires BL.Good(bl) && h in hbSz && 1 <= req.blocks <= hbSz[h]
      ensures found <==> Admissible(bl, blLimit, req, h, hbSz[h])
      ensures found ==> GoodPlace(bl, blLimit, req, h, hbSz[h], s)
      ensures allListed <==> !found && AllListed(bl, req, h, hbSz[h])
    {
      if !Checked(req) {
        assert GoodPlace(bl, blLimit, req, h, hbSz[h], h);
        return true, h, false;
      }
      s := Advance(bl, req, h, hbSz[h]);
      if s + req.blocks <= h + hbSz[h] {
        if s != h && h in req.unsplit {
          assert GoodStart(bl, req, s);
          return false, s, false;
        }
        assert GoodPlace(bl, blLimit, req, h, hbSz[h], s);
        return true, s, false;
      }
      if req.blocks > blLimit && hbSz[h] - req.blocks > blLimit {
        assert GoodPlace(bl, blLimit, req, h, hbSz[h], h);
        return true, h, false;
      }
      assert req.blocks == 1 ==> Looked(req) == 1;
      return false, s, s == h + hbSz[h] && req.blocks == 1;
    }

    /** Allocate from the block h found by the search. */
    method AllocateFrom(bl: BL.Lists, blLimit: nat, req: Request, h: nat, s: nat, i: nat, ghost sz0: map<nat, nat>,
                        ghost free0: set<nat>, ghost count0: nat)
      requires Valid() && BL.Good(bl) && req.blocks >= 1
      requires DroppedSince(bl, blLimit, req, sz0, free0, count0, hbSz, hbFree, dropCount)
      requires h in on && h in hbSz && on[h] == i <= N_HBLK_FLS && GoodPlace(bl, blLimit, req, h, hbSz[h], s)
      modifies this`flHead, this`freeBytes, this`hbNext, this`hbPrev, this`lists, this`on, this`hbFree,
               this`hbSz, this`largeFree, this`hbUnmapped, this`mapped, headers
      ensures Valid() && s != 0 && hbUnmapped == old(hbUnmapped) - {h}
      ensures NoAdjacent(sz0, free0) ==> NoAdjacent(hbSz, hbFree)
      ensures Served(bl, blLimit, req, sz0, free0, count0, hbSz, hbFree, dropCount, s, h)
    {
      hide LinksOk, Tiles, Placed, Short, Sum, Total, NoAdjacent, Served, OnlyDropped, CarvedSz, CarvedFree,
           DroppedUseless, MapAgrees, Indexes, HI.Index.Valid;
      ListedFacts(hbSz, hbFree, on, pages, h);
      CarvedServed(bl, blLimit, req, sz0, free0, count0, hbSz, hbFree, dropCount, s, h);
      if NoAdjacent(hbSz, hbFree) {
        CarvedNoAdjacent(hbSz, hbFree, pages, h, s, req.blocks);
      }
      AllocateAt(h, s, req.blocks, i);
    }

    /** Drop the useless kth block h of list i and return where the search goes on: after the
        block's predecessor, or at the front of the list if it had none. */
    method DropAndGoOn(h: nat, i: nat, ghost k: nat) returns (next: nat)
      requires Valid() && i <= N_HBLK_FLS && |lists| == N_HBLK_FLS + 1
      requires k < |lists[i]| && lists[i][k] == h && h in hbSz && h !in hbUnmapped
      modifies this`flHead, this`freeBytes, this`hbNext, this`hbPrev, this`lists, this`on, this`hbFree,
               this`hbSz, this`largeFree, headers
      ensures Valid() && OnlyDropped(old(hbSz), old(hbFree), hbSz, hbFree)
      ensures old(NoAdjacent(hbSz, hbFree)) ==> NoAdjacent(hbSz, hbFree)
      ensures hbFree == old(hbFree) - {h} && h in old(hbFree)
      ensures lists == old(lists)[i := Without(old(lists)[i], k)]
      ensures next == if k < |lists[i]| then lists[i][k] else 0
    {
      hide LinksOk, Tiles, Placed, Short, Sum, Total, Linked, OnlyDropped, NoAdjacent, NoDuplicates, MapAgrees, Chops,
           Indexes, HI.Index.Valid;
      ListPosition(hbSz, Links(), i, k);
      if k > 0 {
        ListPosition(hbSz, Links(), i, k - 1);
      }
      ListFacts(hbSz, hbFree, Links(), i);
      var prev := hbPrev[h];
      ghost var L := lists[i];
      ghost var k' := DropBlock(h, i);
      assert k' == k by { assert L[k'] == L[k]; SamePosition(L, k', k); }
      LinksShape(hbSz, Links());
      if prev == 0 {
        ListPosition(hbSz, Links(), i, 0);
        next := flHead[i];
      } else {
        ListPosition(hbSz, Links(), i, k - 1);
        assert lists[i][k - 1] == prev;
        next := hbNext[prev];
      }
    }

    /** Go on after the kth block h of list i, which cannot serve, and drop it if it is time to. */
    method PassOver(bl: BL.Lists, blLimit: nat, req: Request, h: nat, i: nat, ghost k: nat, drop: bool)
      returns (next: nat, ghost k': nat)
      requires Valid() && BL.Good(bl) && i <= N_HBLK_FLS && |lists| == N_HBLK_FLS + 1
      requires k < |lists[i]| && lists[i][k] == h && h in hbSz && (drop ==> h !in hbUnmapped)
      requires !Admissible(bl, blLimit, req, h, hbSz[h])
      modifies this`flHead, this`freeBytes, this`hbNext, this`hbPrev, this`lists, this`on, this`hbFree,
               this`hbSz, this`largeFree, headers
      ensures Valid() && GoneOn(old(lists), lists, i, k + 1, k') && (!drop ==> lists == old(lists))
      ensures OnlyDropped(old(hbSz), old(hbFree), hbSz, hbFree)
      ensures DroppedUseless(bl, blLimit, req, old(hbSz), old(hbFree), hbFree)
      ensures h in old(hbFree) && hbFree == old(hbFree) - (if drop then {h} else {})
      ensures old(NoAdjacent(hbSz, hbFree)) ==> NoAdjacent(hbSz, hbFree)
      ensures next == if k' < |lists[i]| then lists[i][k'] else 0
    {
      hide LinksOk, Tiles, Placed, Short, Sum, Total, Linked, OnlyDropped, NoAdjacent, Admissible, MapAgrees, Indexes,
           HI.Index.Valid;
      ListPosition(hbSz, Links(), i, k);
      ListFacts(hbSz, hbFree, Links(), i);
      NothingDropped(bl, blLimit, req, hbSz, hbFree, on, dropCount);
      k' := k;
      if drop {
        next := DropAndGoOn(h, i, k);
      } else {
        next, k' := hbNext[h], k + 1;
      }
    }

    /** The block is counted: it cannot serve, is mapped, and is black-listed all through. */
    ghost predicate Counts(bl: BL.Lists, blLimit: nat, req: Request, h: nat)
      requires BL.Good(bl) && h in hbSz
      reads this
    {
      !Admissible(bl, blLimit, req, h, hbSz[h]) && AllListed(bl, req, h, hbSz[h]) && h !in hbUnmapped && !findLeak
    }

    /** Serve the request from the kth block h of list i, or go on after it. */
    method TryBlock(bl: BL.Lists, blLimit: nat, req: Request, h: nat, i: nat, ghost k: nat,
                    ghost sz0: map<nat, nat>, ghost free0: set<nat>, ghost count0: nat)
      returns (r: nat, next: nat, ghost k': nat)
      requires Valid() && BL.Good(bl) && i <= N_HBLK_FLS && |lists| == N_HBLK_FLS + 1
      requires DroppedSince(bl, blLimit, req, sz0, free0, count0, hbSz, hbFree, dropCount)
      requires k < |lists[i]| && lists[i][k] == h && h in hbSz && 1 <= req.blocks <= hbSz[h]
      modifies this`flHead, this`freeBytes, this`hbNext, this`hbPrev, this`lists, this`on, this`hbFree,
               this`hbSz, this`largeFree, this`dropCount, this`hbUnmapped, this`mapped, headers
      ensures Valid() && (NoAdjacent(sz0, free0) ==> NoAdjacent(hbSz, hbFree))
      ensures dropCount == old(dropCount) + if old(Counts(bl, blLimit, req, h)) then 1 else 0
      ensures r == 0 <==> !Admissible(bl, blLimit, req, h, old(hbSz)[h])
      ensures r != 0 ==> hbUnmapped == old(hbUnmapped) - {h}
      ensures r != 0 ==> Served(bl, blLimit, req, sz0, free0, count0, hbSz, hbFree, dropCount, r, h)
      ensures r == 0 ==>
                && hbUnmapped == old(hbUnmapped) && GoneOn(old(lists), lists, i, k + 1, k')
                && (req.blocks != 1 ==> lists == old(lists))
                && DroppedSince(bl, blLimit, req, sz0, free0, count0, hbSz, hbFree, dropCount)
                && hbFree == old(hbFree) - (if dropCount != old(dropCount) && dropCount % 4 == 0 then {h} else {})
                && next == if k' < |lists[i]| then lists[i][k'] else 0
    {
      hide LinksOk, Tiles, Placed, Short, Sum, Total, Linked, OnlyDropped, NoAdjacent, Served, Admissible, GoodPlace,
           DroppedUseless, MapAgrees, Indexes, HI.Index.Valid;
      ListPosition(hbSz, Links(), i, k);
      var found, s, allListed := Place(bl, blLimit, req, h);
      if found {
        AllocateFrom(bl, blLimit, req, h, s, i, sz0, free0, count0);
        return s, 0, k;
      }
      var dropNow := false;
      if allListed && h !in hbUnmapped && !findLeak {
        dropCount := dropCount + 1;
        dropNow := dropCount % 4 == 0;
      }
      ghost var sz1, free1 := hbSz, hbFree;
      r := 0;
      next, k' := PassOver(bl, blLimit, req, h, i, k, dropNow);
      DroppedAgain(bl, blLimit, req, sz0, free0, count0, sz1, free1, old(dropCount), hbSz, hbFree, dropCount);
    }

    /** One round of the search: serve the request from the kth block h of list i, or go on after it. */
    method Consider(bl: BL.Lists, blLimit: nat, req: Request, maySplit: bool, h: nat, i: nat, ghost k: nat,
                    ghost sz0: map<nat, nat>, ghost free0: set<nat>, ghost count0: nat)
      returns (r: nat, next: nat, ghost k': nat)
      requires Valid() && BL.Good(bl) && i <= N_HBLK_FLS && |lists| == N_HBLK_FLS + 1 && req.blocks >= 1
      requires DroppedSince(bl, blLimit, req, sz0, free0, count0, hbSz, hbFree, dropCount)
      requires k < |lists[i]| && lists[i][k] == h && h in hbSz
      modifies this`flHead, this`freeBytes, this`hbNext, this`hbPrev, this`lists, this`on, this`hbFree,
               this`hbSz, this`largeFree, this`dropCount, this`hbUnmapped, this`mapped, headers
      ensures Valid()
      ensures r != 0 <==> !PassedOver(bl, req, maySplit, old(hbSz), old(lists)[i], k)
                          && Missed(bl, blLimit, req, maySplit, h, old(hbSz)[h])
      ensures r != 0 ==> hbUnmapped == old(hbUnmapped) - {h}
      ensures r != 0 ==> Served(bl, blLimit, req, sz0, free0, count0, hbSz, hbFree, dropCount, r, h)
      ensures r != 0 ==> NoAdjacent(sz0, free0) ==> NoAdjacent(hbSz, hbFree)
      ensures r == 0 ==>
                && hbUnmapped == old(hbUnmapped) && GoneOn(old(lists), lists, i, k + 1, k')
                && (req.blocks != 1 ==> lists == old(lists))
                && DroppedSince(bl, blLimit, req, sz0, free0, count0, hbSz, hbFree, dropCount)
                && next == if k' < |lists[i]| then lists[i][k'] else 0
    {
      hide LinksOk, Tiles, Placed, Short, Sum, Total, Linked, DroppedSince, NoAdjacent, Served, Admissible, Missed,
           MapAgrees, Indexes, HI.Index.Valid;
      ListPosition(hbSz, Links(), i, k);
      if k + 1 < |lists[i]| { ListPosition(hbSz, Links(), i, k + 1); }
      MissedIs(bl, blLimit, req, maySplit, h, hbSz[h]);
      GoneOnSame(lists, i, k + 1);
      var avail := hbSz[h];
      var better := false;
      if req.blocks < avail && maySplit {
        better := NextIsBetter(bl, req, h);
      }
      if better {
        return 0, hbNext[h], k + 1;
      }
      if avail < req.blocks || (avail != req.blocks && !maySplit) {
        return 0, hbNext[h], k + 1;
      }
      r, next, k' := TryBlock(bl, blLimit, req, h, i, k, sz0, free0, count0);
    }

    /** GC_allochblk_nth: search list i for the request.  The ghost result is the free block that
        served it. */
    method AllochblkNth(bl: BL.Lists, blLimit: nat, req: Request, i: nat, maySplit: bool) returns (r: nat, ghost b: nat)
      requires Valid() && BL.Good(bl) && req.blocks >= 1 && i <= N_HBLK_FLS
      modifies this`flHead, this`freeBytes, this`hbNext, this`hbPrev, this`lists, this`on, this`hbFree,
               this`hbSz, this`largeFree, this`dropCount, this`hbUnmapped, this`mapped, headers
      ensures Valid() && hbUnmapped == old(hbUnmapped) - (if r == 0 then {} else {b})
      ensures r != 0 && old(NoAdjacent(hbSz, hbFree)) ==> NoAdjacent(hbSz, hbFree)
      ensures |old(lists)| == N_HBLK_FLS + 1 && Holds(old(hbSz), old(hbFree), old(lists)[i], i)
      ensures r != 0 ==>
                Served(bl, blLimit, req, old(hbSz), old(hbFree), old(dropCount), hbSz, hbFree, dropCount, r, b)
      ensures r != 0 ==> FirstOf(bl, blLimit, req, maySplit, old(hbSz), old(lists)[i], b)
      ensures r == 0 ==>
                DroppedSince(bl, blLimit, req, old(hbSz), old(hbFree), old(dropCount), hbSz, hbFree, dropCount)
      ensures r == 0 ==> GoneOn(old(lists), lists, i, |old(lists)[i]|, |lists[i]|)
      ensures r == 0 ==> req.blocks != 1 ==> lists == old(lists)
      ensures r == 0 ==> forall a :: a in old(hbFree) && a in old(hbSz) && ListFor(old(hbSz)[a]) == i ==>
                           !Missed(bl, blLimit, req, maySplit, a, old(hbSz)[a])
    {
      hide LinksOk, Tiles, Placed, Short, Sum, Total, Linked, DroppedSince, NoAdjacent, Served, Admissible, NoneBefore,
           PassedOver, FirstOf, Missed, GoneOn, Holds, MapAgrees, Indexes, HI.Index.Valid;
      ghost var sz0, free0 := hbSz, hbFree;
      NothingDropped(bl, blLimit, req, hbSz, hbFree, on, dropCount);
      LinksShape(hbSz, Links());
      ListHolds(hbSz, hbFree, Links(), i);
      ghost var L, lists0, count0 := lists[i], lists, dropCount;
      ghost var k: nat, k0: nat := 0, 0;
      GoneOnStart(lists, i);
      NoneBeforeNone(bl, blLimit, req, maySplit, hbSz, L);
      ListPosition(hbSz, Links(), i, 0);
      var hbp := flHead[i];
      while hbp != 0
        invariant Valid() && hbUnmapped == old(hbUnmapped)
        invariant DroppedSince(bl, blLimit, req, sz0, free0, count0, hbSz, hbFree, dropCount)
        invariant GoneOn(lists0, lists, i, k0, k) && (req.blocks != 1 ==> lists == lists0)
        invariant |lists| == N_HBLK_FLS + 1 && k <= |lists[i]| && k0 <= |L|
        invariant hbp == (if k < |lists[i]| then lists[i][k] else 0)
        invariant NoneBefore(bl, blLimit, req, maySplit, sz0, L, k0)
        decreases |L| - k0
      {
        NextOnList(bl, blLimit, req, maySplit, hbSz, hbFree, Links(), sz0, free0, count0, dropCount, lists0, i, k0, k);
        ghost var lists1, k1 := lists, k;
        b := hbp;
        r, hbp, k := Consider(bl, blLimit, req, maySplit, hbp, i, k, sz0, free0, count0);
        if r != 0 {
          FirstOfHere(bl, blLimit, req, maySplit, sz0, L, k0);
          return;
        }
        NoneBeforeNext(bl, blLimit, req, maySplit, sz0, L, k0);
        GoneOnNext(lists0, lists1, i, k0, k1, lists, k);
        k0 := k0 + 1;
        GoneOnEnd(lists0, lists, i, k0, k);
      }
      GoneOnEnd(lists0, lists, i, k0, k);
      ListPosition(hbSz, Links(), i, k);
      ListSearched(bl, blLimit, req, maySplit, sz0, free0, L, i);
      return 0, 0;
    }

    /** GC_allochblk: find blocks for the request, splitting blocks of the lists up to
        splitLimit, but not unmapped ones if remapping them is to be avoided.  The result is 0 exactly
        if no free block can serve the request among the exact fits and the lists up to splitLimit; with
        the split limit at the last list, among all free blocks. */
    method Allochblk(bl: BL.Lists, blLimit: nat, asked: Request, splitLimit: nat, avoidRemap: bool)
      returns (r: nat, ghost b: nat)
      requires Valid() && BL.Good(bl) && asked.blocks >= 1 && splitLimit <= N_HBLK_FLS
      modifies this`flHead, this`freeBytes, this`hbNext, this`hbPrev, this`lists, this`on, this`hbFree,
               this`hbSz, this`largeFree, this`dropCount, this`hbUnmapped, this`mapped, headers
      ensures Valid() && hbUnmapped == old(hbUnmapped) - (if r == 0 then {} else {b})
      ensures old(NoAdjacent(hbSz, hbFree)) ==> NoAdjacent(hbSz, hbFree)
      ensures var req := Avoiding(asked, avoidRemap, old(hbUnmapped));
              && (r == 0 <==> NoneFound(bl, blLimit, req, splitLimit + 1, old(hbSz), old(hbFree)))
              && (r != 0 ==>
                    Served(bl, blLimit, req, old(hbSz), old(hbFree), old(dropCount), hbSz, hbFree, dropCount, r, b))
              && (r != 0 ==> b in old(hbSz))
              && (r != 0 ==> Chosen(bl, blLimit, req, splitLimit + 1, old(hbSz), old(hbFree), old(lists), b))
              && (r != 0 ==> Searched(req, splitLimit + 1, old(hbSz)[b]))
              && (r == 0 ==>
                    DroppedSince(bl, blLimit, req, old(hbSz), old(hbFree), old(dropCount), hbSz, hbFree, dropCount))
              && (splitLimit == N_HBLK_FLS ==>
                    (r == 0 <==> forall a :: a in old(hbFree) && a in old(hbSz) ==>
                                   !Admissible(bl, blLimit, req, a, old(hbSz)[a])))
    {
      hide LinksOk, Tiles, Placed, Short, Sum, Total, NoAdjacent, Served, Admissible,
           NoneFound, Missed, FirstOf, Chosen, Searched, Holds, OnlyDropped, DroppedUseless, MapAgrees, Indexes,
           HI.Index.Valid;
      var req := Avoiding(asked, avoidRemap, hbUnmapped);
      ghost var sz0, free0, lists0, count0 := hbSz, hbFree, lists, dropCount;
      NothingDropped(bl, blLimit, req, hbSz, hbFree, on, dropCount);
      if req.blocks > maxBlocks {
        TooLong(bl, blLimit, req, maxBlocks, hbSz, hbFree, on, splitLimit + 1);
        return 0, 0;
      }
      var start := ListFor(req.blocks);
      r, b := AllochblkNth(bl, blLimit, req, start, false);
      if r == 0 {
        NoneFoundStart(bl, blLimit, req, sz0, free0);
        FirstSplitList(req);
        start := FirstSplit(req);
        r, b := SearchLists(bl, blLimit, req, start, splitLimit, sz0, free0, lists0, count0);
      } else {
        ServedAdmissible(bl, blLimit, req, sz0, free0, count0, hbSz, hbFree, dropCount, r, b);
        ChosenExact(bl, blLimit, req, splitLimit + 1, sz0, free0, lists0, b);
      }
      if r != 0 {
        ServedAdmissible(bl, blLimit, req, sz0, free0, count0, hbSz, hbFree, dropCount, r, b);
        ChosenFound(bl, blLimit, req, splitLimit + 1, sz0, free0, lists0, b);
      } else if splitLimit == N_HBLK_FLS {
        AllSearched(bl, blLimit, req, sz0, free0);
      }
    }

    /** The loop of GC_allochblk over the lists start..splitLimit. */
    method SearchLists(bl: BL.Lists, blLimit: nat, req: Request, start: nat, splitLimit: nat,
                       ghost sz0: map<nat, nat>, ghost free0: set<nat>, ghost lists0: seq<seq<nat>>, ghost count0: nat)
      returns (r: nat, ghost b: nat)
      requires Valid() && BL.Good(bl) && req.blocks >= 1 && splitLimit <= N_HBLK_FLS && start == FirstSplit(req)
      requires DroppedSince(bl, blLimit, req, sz0, free0, count0, hbSz, hbFree, dropCount)
      requires NoneFound(bl, blLimit, req, 0, sz0, free0)
      requires |lists| == |lists0| == N_HBLK_FLS + 1 && forall j :: start <= j < |lists| ==> lists[j] == lists0[j]
      modifies this`flHead, this`freeBytes, this`hbNext, this`hbPrev, this`lists, this`on, this`hbFree,
               this`hbSz, this`largeFree, this`dropCount, this`hbUnmapped, this`mapped, headers
      ensures Valid() && hbUnmapped == old(hbUnmapped) - (if r == 0 then {} else {b})
      ensures NoAdjacent(sz0, free0) ==> NoAdjacent(hbSz, hbFree)
      ensures r != 0 ==> Served(bl, blLimit, req, sz0, free0, count0, hbSz, hbFree, dropCount, r, b) && b in sz0
      ensures r != 0 ==> Chosen(bl, blLimit, req, splitLimit + 1, sz0, free0, lists0, b)
      ensures r == 0 ==> DroppedSince(bl, blLimit, req, sz0, free0, count0, hbSz, hbFree, dropCount)
      ensures r == 0 ==> NoneFound(bl, blLimit, req, splitLimit + 1, sz0, free0)
    {
      hide LinksOk, Tiles, Placed, Short, Sum, Total, OnlyDropped, NoAdjacent, Served, Admissible, DroppedUseless,
           NoneFound, Missed, FirstOf, Chosen, Holds, MapAgrees, Indexes, HI.Index.Valid;
      r, b := 0, 0;
      var i := start;
      NoneFoundBelow(bl, blLimit, req, i, sz0, free0);
      while i <= splitLimit
        invariant Valid() && start <= i && hbUnmapped == old(hbUnmapped)
        invariant DroppedSince(bl, blLimit, req, sz0, free0, count0, hbSz, hbFree, dropCount)
        invariant NoneFound(bl, blLimit, req, i, sz0, free0)
        invariant |lists| == N_HBLK_FLS + 1 && forall j :: i <= j < |lists| ==> lists[j] == lists0[j]
      {
        ghost var sz1, free1, count1 := hbSz, hbFree, dropCount;
        r, b := AllochblkNth(bl, blLimit, req, i, true);
        if r != 0 {
          ServedAfterDrop(bl, blLimit, req, sz0, free0, count0, sz1, free1, count1, hbSz, hbFree, dropCount, r, b);
          ChosenSplit(bl, blLimit, req, splitLimit + 1, sz0, free0, sz1, free1, lists0, i, b);
          return;
        }
        DroppedAgain(bl, blLimit, req, sz0, free0, count0, sz1, free1, count1, hbSz, hbFree, dropCount);
        SearchedMore(bl, blLimit, req, i, sz0, free0, sz1, free1);
        i := i + 1;
      }
      NoneFoundMore(bl, blLimit, req, i, splitLimit + 1, sz0, free0);
      return 0, 0;
    }

    // ---------- freeing

    /** The lists, the tiling and the free byte counts agree. */
    ghost predicate Consistent()
      reads this, headers
    {
      ValidBut(0) && MapOk() && IndexOk(hbFree) && largeFree == Total(freeBytes)
    }

    /** GC_free_block_ending_at: the free block ending just before h, or 0. */
    method FreeBlockEndingAt(h: nat) returns (p: nat)
      requires IndexOk(hbFree + {h}) && h in hbSz && 0 !in hbSz
      ensures p != 0 ==> p in hbFree && p in hbSz && p + hbSz[p] == h
      ensures p == 0 ==> forall a :: a in hbFree && a in hbSz && a < h ==> a + hbSz[a] != h
    {
      hide Indexes, HI.Index.Valid;
      p := EndingAt(headers, hbSz, hbFree + {h}, h);
      if p !in hbFree {
        p := 0;
      }
    }

    /** Coalesce h with its successor, if that is free and the sum is not too long. */
    method CoalesceNext(h: nat)
      requires ValidBut(0) && MapOk() && IndexOk(hbFree + {h}) && h in hbSz && h !in hbFree && h !in on
      modifies this`flHead, this`freeBytes, this`hbNext, this`hbPrev, this`lists, this`on, this`hbFree,
               this`hbSz, headers
      ensures ValidBut(0) && MapOk() && IndexOk(hbFree + {h}) && h in hbSz && h !in hbFree && h !in on
      ensures Total(freeBytes) + hbSz[h] == Total(old(freeBytes)) + old(hbSz)[h]
      ensures SameInUse(old(hbSz), old(hbFree), hbSz, hbFree, h)
      ensures SameBelow(old(hbSz), old(hbFree), hbSz, hbFree, h)
      ensures hbSz == NextJoinedSz(old(hbSz), old(hbFree), hbUnmapped, maxBlocks, h)
      ensures hbFree == NextJoinedFree(old(hbSz), old(hbFree), hbUnmapped, maxBlocks, h)
      ensures |pages| <= maxBlocks && hbUnmapped == {} && old(NoAdjacent(hbSz, hbFree)) ==>
                NoAdjacent(hbSz, hbFree) && h + hbSz[h] !in hbFree
    {
      hide LinksOk, Tiles, Placed, Short, Sum, Total, NoAdjacent, Agree, Without, SameInUse, SameBelow,
           MapAgrees, Indexes, HI.Index.Valid;
      UnmappedFree(hbSz, hbFree, hbUnmapped, mapped);
      ListedFacts(hbSz, hbFree, on, pages, h);
      TilesPositive(hbSz, pages, h);
      var next := h + hbSz[h];
      if next in hbSz {
        MergedFits(hbSz, pages, h);
      }
      CoalescedSame(hbSz, hbFree, h);
      if next in hbSz && next in hbFree && next !in hbUnmapped && hbSz[h] + hbSz[next] <= maxBlocks {
        MergedMap(hbSz, hbFree, hbUnmapped, mapped, h, hbFree - {next});
        assert hbUnmapped - {next} == hbUnmapped;
        if NoAdjacent(hbSz, hbFree) {
          MergedNextNoAdjacent(hbSz, hbFree, pages, h);
        }
        MergeHeaders(headers, hbSz, hbFree + {h}, h);
        assert hbFree + {h} - {next} == hbFree - {next} + {h};
        TakeOver(h, next);
      }
    }

    /** Let h, which is in use, absorb its free successor. */
    method TakeOver(h: nat, next: nat)
      requires ValidBut(0) && h in hbSz && h !in hbFree && h !in on && next == h + hbSz[h]
      requires next in hbSz && next in hbFree && hbSz[h] + hbSz[next] <= maxBlocks
      modifies this`flHead, this`freeBytes, this`hbNext, this`hbPrev, this`lists, this`on, this`hbFree, this`hbSz
      ensures ValidBut(0) && h !in hbFree && h !in on
      ensures hbSz == Merged(old(hbSz), h) && hbFree == old(hbFree) - {next}
      ensures Total(freeBytes) + old(hbSz)[next] == Total(old(freeBytes))
    {
      hide LinksOk, Tiles, Placed, Short, Sum, Total, Agree, Without;
      FreeListed(hbSz, hbFree, on, next);
      PlacedUnlist(hbSz, hbFree, on, 0, next);
      ghost var k := RemoveFromFlAt(next, ListFor(hbSz[next]));
      hbFree := hbFree - {next};
      PlacedExcept(hbSz, hbFree, on, h);
      LinksShape(hbSz, Links());
      MergedPlaced(hbSz, hbFree, on, pages, h, maxBlocks);
      LinksAgree(hbSz, Links(), Merged(hbSz, h));
      hbSz := (hbSz - {next})[h := hbSz[h] + hbSz[next]];
      PlacedInUse(hbSz, hbFree, on, h);
      assert hbFree - {h} == hbFree;
    }

    /** GC_freehblk: free the block at h, coalescing it with free neighbours; false stands for
        the abort on a duplicate deallocation. */
    method Freehblk(h: nat) returns (ok: bool)
      requires Consistent() && h in hbSz
      modifies this`flHead, this`freeBytes, this`hbNext, this`hbPrev, this`lists, this`on, this`hbFree,
               this`hbSz, this`largeFree, headers
      ensures Consistent()
      ensures ok <==> h !in old(hbFree)
      ensures !ok ==> unchanged(this) && unchanged(headers)
      ensures ok ==> largeFree == old(largeFree) + old(hbSz)[h]
      ensures ok ==> SameInUse(old(hbSz), old(hbFree), hbSz, hbFree, h) && (h in hbSz ==> h in hbFree)
      ensures ok ==> Freed(old(hbSz), old(hbFree), hbUnmapped, maxBlocks, h, hbSz, hbFree)
      ensures |pages| <= maxBlocks && hbUnmapped == {} && old(NoAdjacent(hbSz, hbFree)) ==> NoAdjacent(hbSz, hbFree)
    {
      hide LinksOk, Tiles, Placed, Short, Sum, Total, NoAdjacent, SameInUse, MapAgrees, Freed, Indexes, HI.Index.Valid;
      if h in hbFree {
        return false;
      }
      ReleaseHeaders(headers, hbSz, hbFree, h);
      FreeReleased(h);
      ok := true;
    }

    /** The rest of GC_freehblk, once the block's forwarding counts are gone and its header says free. */
    method FreeReleased(h: nat)
      requires ValidBut(0) && MapOk() && IndexOk(hbFree + {h}) && largeFree == Total(freeBytes) && h in hbSz
      requires h !in hbFree
      modifies this`flHead, this`freeBytes, this`hbNext, this`hbPrev, this`lists, this`on, this`hbFree,
               this`hbSz, this`largeFree, headers
      ensures Consistent()
      ensures largeFree == old(largeFree) + old(hbSz)[h]
      ensures SameInUse(old(hbSz), old(hbFree), hbSz, hbFree, h) && (h in hbSz ==> h in hbFree)
      ensures Freed(old(hbSz), old(hbFree), hbUnmapped, maxBlocks, h, hbSz, hbFree)
      ensures |pages| <= maxBlocks && hbUnmapped == {} && old(NoAdjacent(hbSz, hbFree)) ==> NoAdjacent(hbSz, hbFree)
    {
      hide LinksOk, Tiles, Placed, Short, Sum, Total, NoAdjacent, Agree, Without, SameInUse, Merged, MapAgrees,
           NextJoinedSz, NextJoinedFree, FreedNext, Indexes, HI.Index.Valid;
      ListedFacts(hbSz, hbFree, on, pages, h);
      PlacedNoZero(hbSz, hbFree, on);
      TilesPositive(hbSz, pages, h);
      var size := hbSz[h];
      var prev := FreeBlockEndingAt(h);
      ghost var sz0, free0 := hbSz, hbFree;
      if prev != 0 {
        TilesPositive(hbSz, pages, prev);
      }
      CoalesceNext(h);
      ghost var sz1, free1 := hbSz, hbFree;
      largeFree := largeFree + size;
      if prev != 0 && prev !in hbUnmapped && hbSz[h] + hbSz[prev] <= maxBlocks {
        FreedWith(hbSz, hbFree, hbUnmapped, maxBlocks, h, prev);
        CoalescePrev(h, prev);
        MergedSameInUse(sz0, free0, sz1, free1, prev, h);
      } else {
        ListedFacts(hbSz, hbFree, on, pages, h);
        FreedAlone(hbSz, hbFree, hbUnmapped, maxBlocks, pages, h, prev);
        FreeAlone(h, prev);
        FreedSameInUse(sz0, free0, sz1, free1, h);
      }
    }

    /** Put the freed block h on its list. */
    method FreeAlone(h: nat, ghost prev: nat)
      requires ValidBut(0) && h in hbSz && h !in hbFree && h !in on
      requires MapOk() && IndexOk(hbFree + {h})
      requires prev != 0 ==> prev in hbSz && prev in hbFree && prev + hbSz[prev] == h
      requires prev != 0 ==> prev in hbUnmapped || hbSz[h] + hbSz[prev] > maxBlocks
      requires prev == 0 ==> forall a :: a in hbFree && a in hbSz && a < h ==> a + hbSz[a] != h
      modifies this`flHead, this`freeBytes, this`hbNext, this`hbPrev, this`lists, this`on, this`hbFree
      ensures ValidBut(0) && MapOk() && IndexOk(hbFree)
      ensures hbFree == old(hbFree) + {h}
      ensures Total(freeBytes) == Total(old(freeBytes)) + hbSz[h]
      ensures |pages| <= maxBlocks && hbUnmapped == {} && h + hbSz[h] !in old(hbFree) ==>
                old(NoAdjacent(hbSz, hbFree)) ==> NoAdjacent(hbSz, hbFree)
    {
      hide LinksOk, Tiles, Placed, Short, Sum, Total, NoAdjacent, Agree, Without, MapAgrees, Indexes, HI.Index.Valid;
      FreedMap(hbSz, hbFree, hbUnmapped, mapped, h);
      ListedFacts(hbSz, hbFree, on, pages, h);
      TilesPositive(hbSz, pages, h);
      if prev != 0 {
        MergedFits(hbSz, pages, prev);
      } else if NoAdjacent(hbSz, hbFree) && h + hbSz[h] !in hbFree {
        FreedNoAdjacent(hbSz, hbFree, pages, h);
      }
      PlacedExcept(hbSz, hbFree, on, h);
      PlacedBack(hbSz, hbFree, on, h);
      AddToFl(h);
    }

    /** Let h, which is on no list, absorb its successor, which is not free, and list it. */
    method AbsorbNext(h: nat)
      requires ValidBut(h) && h in hbSz && h + hbSz[h] in hbSz && h !in on
      requires h + hbSz[h] !in hbFree && h + hbSz[h] !in on && hbSz[h] + hbSz[h + hbSz[h]] <= maxBlocks
      modifies this`flHead, this`freeBytes, this`hbNext, this`hbPrev, this`lists, this`on, this`hbFree,
               this`hbSz
      ensures ValidBut(0)
      ensures hbSz == Merged(old(hbSz), h) && hbFree == old(hbFree) + {h}
      ensures Total(freeBytes) == Total(old(freeBytes)) + old(hbSz)[h] + old(hbSz)[h + old(hbSz)[h]]
    {
      hide LinksOk, Tiles, Placed, Short, Sum, Total, Agree;
      var next := h + hbSz[h];
      TilesPositive(hbSz, pages, h);
      LinksShape(hbSz, Links());
      MergedPlaced(hbSz, hbFree, on, pages, h, maxBlocks);
      LinksAgree(hbSz, Links(), Merged(hbSz, h));
      hbSz := (hbSz - {next})[h := hbSz[h] + hbSz[next]];
      PlacedBack(hbSz, hbFree, on, h);
      AddToFl(h);
    }

    /** Let the free block prev absorb the freed block h. */
    method CoalescePrev(h: nat, prev: nat)
      requires ValidBut(0) && h in hbSz && h !in hbFree && h !in on
      requires prev in hbSz && prev in hbFree && prev + hbSz[prev] == h && hbSz[h] + hbSz[prev] <= maxBlocks
      requires MapOk() && IndexOk(hbFree + {h}) && prev !in hbUnmapped
      modifies this`flHead, this`freeBytes, this`hbNext, this`hbPrev, this`lists, this`on, this`hbFree,
               this`hbSz, headers
      ensures ValidBut(0) && MapOk() && IndexOk(hbFree)
      ensures hbSz == Merged(old(hbSz), prev) && hbFree == old(hbFree)
      ensures Total(freeBytes) == Total(old(freeBytes)) + old(hbSz)[h]
      ensures old(NoAdjacent(hbSz, hbFree)) && h + old(hbSz)[h] !in old(hbFree) ==> NoAdjacent(hbSz, hbFree)
    {
      hide LinksOk, Tiles, Placed, Short, Sum, Total, NoAdjacent, Agree, Without, MapAgrees, Indexes, HI.Index.Valid;
      UnmappedFree(hbSz, hbFree, hbUnmapped, mapped);
      TilesPositive(hbSz, pages, prev);
      MergedMap(hbSz, hbFree, hbUnmapped, mapped, prev, hbFree);
      assert hbUnmapped - {h} == hbUnmapped;
      MergeHeaders(headers, hbSz, hbFree + {h}, prev);
      assert hbFree + {h} - {h} == hbFree;
      ListedFacts(hbSz, hbFree, on, pages, prev);
      FreeListed(hbSz, hbFree, on, prev);
      if NoAdjacent(hbSz, hbFree) && h + hbSz[h] !in hbFree {
        MergedPrevNoAdjacent(hbSz, hbFree, pages, prev);
      }
      PlacedOff(hbSz, hbFree, on, prev);
      ghost var k := RemoveFromFlAt(prev, ListFor(hbSz[prev]));
      AbsorbNext(prev);
      assert hbFree == old(hbFree);
    }

    // ---------- growing, and whole runs

    /** GC_add_to_heap: make n new pages at p part of the heap; false stands for the abort on an
        excessively long section. */
    method AddToHeap(p: nat, n: nat) returns (ok: bool)
      requires Valid() && n >= 1
      requires forall q :: p <= q < p + n ==> q !in pages
      modifies this, headers
      ensures ok <==> p + n - (if p < 2 then 2 else p) <= maxBlocks
      ensures !ok ==> unchanged(this) && unchanged(headers)
      ensures ok ==> Valid() && hbUnmapped == old(hbUnmapped) && tidy == old(tidy)
      ensures ok ==> old(pages) <= pages && SameInUse(old(hbSz), old(hbFree), hbSz, hbFree, 0)
      ensures ok ==> forall q :: q in pages <==> q in old(pages) || (2 <= q && p <= q < p + n)
      ensures ok ==> 0 <= heapSize - old(heapSize) == largeFree - old(largeFree)
      ensures ok && p + n <= 2 ==> hbSz == old(hbSz) && hbFree == old(hbFree)
      ensures ok && p + n > 2 ==> var start := if p < 2 then 2 else p;
                Freed(old(hbSz)[start := p + n - start], old(hbFree), hbUnmapped, maxBlocks, start, hbSz, hbFree)
      ensures ok && heapSize <= maxBlocks && hbUnmapped == {} ==>
                old(NoAdjacent(hbSz, hbFree)) ==> NoAdjacent(hbSz, hbFree)
    {
      hide LinksOk, Tiles, Placed, Short, Sum, Total, NoAdjacent, Agree, SameInUse, MapAgrees, Freed, Indexes,
           HI.Index.Valid;
      var start, len := p, n;
      SameInUseSelf(hbSz, hbFree);
      while start <= 1
        invariant p <= start && start + len == p + n && len >= 1
        invariant start == p || start <= 2
        decreases 2 - start
      {
        start := start + 1;
        len := len - 1;
        if len == 0 {
          return true;
        }
      }
      if len > maxBlocks {
        return false;
      }
      AddSection(start, len);
      ok := true;
    }

    /** Install a header for the new section and free it. */
    method AddSection(p: nat, n: nat)
      requires Valid() && p >= 1 && 1 <= n <= maxBlocks
      requires forall q :: p <= q < p + n ==> q !in pages
      modifies this, headers
      ensures Valid() && hbUnmapped == old(hbUnmapped) && tidy == old(tidy) && mapped == old(mapped) + Section(p, n)
      ensures Extends(old(pages), pages, p, n) && SameInUse(old(hbSz), old(hbFree), hbSz, hbFree, 0)
      ensures heapSize == old(heapSize) + n && largeFree == old(largeFree) + n
      ensures Freed(old(hbSz)[p := n], old(hbFree), hbUnmapped, maxBlocks, p, hbSz, hbFree)
      ensures heapSize <= maxBlocks && hbUnmapped == {} && old(NoAdjacent(hbSz, hbFree)) ==> NoAdjacent(hbSz, hbFree)
    {
      hide LinksOk, Tiles, Placed, Short, Sum, Total, NoAdjacent, SameInUse, Extends, Section, MapAgrees, Freed,
           Indexes, HI.Index.Valid;
      ghost var sz0, free0 := hbSz, hbFree;
      InstallSection(p, n);
      FreshNoAdjacent(sz0, free0, p, n);
      FreeReleased(p);
      heapSize := heapSize + n;
      PlacedNoZero(hbSz, hbFree, on);
      FreshSameInUse(sz0, free0, hbSz, hbFree, p, n);
    }

    /** A header for the new section, whose pages are mapped; it is on no list yet. */
    method InstallSection(p: nat, n: nat)
      requires Valid() && p >= 1 && 1 <= n <= maxBlocks
      requires forall q :: p <= q < p + n ==> q !in pages
      modifies this`hbSz, this`mapped, this`pages, headers
      ensures ValidBut(0) && MapOk() && IndexOk(hbFree + {p}) && p !in old(hbSz) && p !in hbFree
      ensures hbSz == old(hbSz)[p := n] && mapped == old(mapped) + Section(p, n)
      ensures Extends(old(pages), pages, p, n) && |pages| == |old(pages)| + n
    {
      hide LinksOk, Tiles, Placed, Short, Sum, Total, Agree, Extends, Section, MapAgrees, Indexes, HI.Index.Valid;
      ghost var pages' := SectionAdded(pages, p, n);
      ExtendsSize(pages, pages', p, n);
      TilesAdd(hbSz, pages, pages', p, n);
      PlacedFresh(hbSz, hbFree, on, p, n, maxBlocks);
      LinksShape(hbSz, Links());
      FreshAgree(hbSz, on, p, n);
      LinksAgree(hbSz, Links(), hbSz[p := n]);
      FreeInstalled(hbSz, hbFree, on);
      FreshMap(hbSz, hbFree, pages, hbUnmapped, mapped, p, n);
      AddHeaders(headers, hbSz, hbFree, pages, p, n);
      mapped := mapped + Section(p, n);
      hbSz := hbSz[p := n];
      pages := pages';
    }

    /** Used and free bytes add up to the heap size, and the free bytes are those of the lists. */
    lemma Conserved()
      requires Valid()
      ensures |UsedPages(hbSz, hbFree, pages)| + largeFree == heapSize
      ensures largeFree == |FreePages(hbSz, hbFree, pages)|
    {
      hide LinksOk, Tiles, Placed, Short, Total, UsedPages, FreePages;
      PagesSplit(hbSz, hbFree, pages);
      FreePagesCounted(hbSz, hbFree, pages, Links());
    }

    /** What holds of every heap that the operations can produce. */
    ghost predicate Invariant()
      reads this, headers
    {
      Valid() && (tidy ==> hbUnmapped == {} && (heapSize <= maxBlocks ==> NoAdjacent(hbSz, hbFree)))
    }

    constructor (maxBlocks: nat, findLeak: bool)
      requires maxBlocks >= 1
      ensures Invariant() && heapSize == 0 && tidy && fresh(headers)
      ensures hbSz == map[] && hbFree == {} && pages == {} && dropCount == 0
    {
      hide LinksOk, Tiles, Placed, Short, MapAgrees, Indexes, HI.Index.Valid, Total;
      this.maxBlocks, this.findLeak := maxBlocks, findLeak;
      headers := new HI.Index();
      hbSz, hbNext, hbPrev, hbFree := map[], map[], map[], {};
      flHead, freeBytes := seq(N_HBLK_FLS + 1, i => 0), seq(N_HBLK_FLS + 1, i => 0);
      largeFree, heapSize, dropCount, hbUnmapped := 0, 0, 0, {};
      lists, on, pages, mapped, tidy := seq(N_HBLK_FLS + 1, i => []), map[], {}, {}, true;
      new;
      EmptyIndexed();
      EmptyHeap(Links(), maxBlocks);
    }

    ghost function ViewNow(): View
      reads this
    {
      View(Here(), lists, pages, dropCount)
    }

    method Ask(bl: BL.Lists, blLimit: nat, asked: Request, splitLimit: nat, avoidRemap: bool) returns (r: nat)
      requires Invariant() && Askable(bl, asked, splitLimit)
      modifies this`flHead, this`freeBytes, this`hbNext, this`hbPrev, this`lists, this`on, this`hbFree,
               this`hbSz, this`largeFree, this`dropCount, this`hbUnmapped, this`mapped, headers
      ensures Invariant() && Allocates(old(ViewNow()), ViewNow(), bl, blLimit, asked, splitLimit, avoidRemap, r)
    {
      hide LinksOk, Tiles, Placed, Short, Sum, Total, NoAdjacent, Served, Chosen, Admissible, NoneFound, OnlyDropped,
           DroppedUseless, MapAgrees, Indexes, HI.Index.Valid;
      ghost var b;
      r, b := Allochblk(bl, blLimit, asked, splitLimit, avoidRemap);
      assert r != 0 ==> GivenFrom(old(ViewNow()), ViewNow(), bl, blLimit,
                                  Avoiding(asked, avoidRemap, old(hbUnmapped)), splitLimit, r, b);
    }

    method GrowBy(p: nat, n: nat) returns (aborted: bool)
      requires Invariant()
      modifies this, headers
      ensures Does(Grow(p, n), old(ViewNow()), ViewNow(), maxBlocks, aborted, 0)
      ensures !aborted ==> Invariant() && old(heapSize) <= heapSize && tidy == old(tidy)
    {
      hide LinksOk, Tiles, Placed, Short, Sum, Total, NoAdjacent, SameInUse, MapAgrees, Freed, Indexes, HI.Index.Valid;
      aborted := false;
      var isNew := AllNew(p, n);
      if isNew {
        var ok := AddToHeap(p, n);
        aborted := !ok;
      }
    }

    /** One operation of a run. */
    method Step(op: Operation) returns (aborted: bool, r: nat)
      requires Invariant()
      modifies this, headers
      ensures Does(op, old(ViewNow()), ViewNow(), maxBlocks, aborted, r)
      ensures !aborted ==> Invariant() && old(heapSize) <= heapSize
      ensures !aborted && !op.Unmap? ==> (old(tidy) ==> tidy)
    {
      hide LinksOk, Tiles, Placed, Short, Sum, Total, NoAdjacent, SameInUse, Allocates, MapAgrees, Mergeable, MergeRun,
           Freed, Indexes, HI.Index.Valid;
      aborted, r := false, 0;
      match op
      case Allocate(bl, blLimit, req, splitLimit, avoidRemap) =>
        if Askable(bl, req, splitLimit) {
          r := Ask(bl, blLimit, req, splitLimit, avoidRemap);
        }
      case Free(h) =>
        if h in hbSz {
          var ok := Freehblk(h);
          aborted := !ok;
        }
      case Grow(p, n) =>
        aborted := GrowBy(p, n);
      case Unmap(aged) =>
        UnmapOld(aged);
        tidy := false;
      case Merge =>
        ghost var trace := MergeUnmapped();
        assert MergesAll(old(ViewNow()), ViewNow(), maxBlocks, trace);
        UnmergeableNoAdjacent(hbSz, hbFree, on, pages, maxBlocks);
        tidy := hbUnmapped == {};
    }

    /** Whether p.. is a non-empty run of pages that the heap does not have yet. */
    method AllNew(p: nat, n: nat) returns (isNew: bool)
      requires Tiles(hbSz, pages)
      ensures isNew <==> n >= 1 && forall q :: p <= q < p + n ==> q !in pages
    {
      for q := p to p + n
        invariant forall q' :: p <= q' < q ==> q' !in pages
      {
        var taken := PageTaken(q);
        if taken {
          return false;
        }
      }
      isNew := n >= 1;
    }

    /** Whether some block already owns page q. */
    method PageTaken(q: nat) returns (taken: bool)
      requires Tiles(hbSz, pages)
      ensures taken <==> q in pages
    {
      var a := q;
      while a > 0 && a !in hbSz
        invariant forall c :: a < c <= q ==> c !in hbSz
      {
        a := a - 1;
      }
      taken := a in hbSz && q < a + hbSz[a];
      assert taken ==> Owns(hbSz, a, q);
      assert !taken && q in pages ==> exists c :: Owns(hbSz, c, q);
    }

    /** Over every run of allocating, freeing, growing, unmapping and merging that does not abort,
        each operation does what it promises, blocks tile the heap, every free block is on the list for its
        length, the byte counts are the sums of the lists, used plus free is the heap size, and every block
        is wholly mapped or free and wholly unmapped.  Without unmapping no two free blocks are adjacent
        while the heap is below the signed limit.  A run that aborts is cut short at the operation that did. */
    method Run(ops: seq<Operation>) returns (aborted: bool, results: seq<nat>, ghost views: seq<View>)
      requires Invariant()
      modifies this, headers
      ensures Runs(ops, views, results, maxBlocks) && views[0] == old(ViewNow())
      ensures if aborted then |results| < |ops| && Does(ops[|results|], views[|results|], ViewNow(), maxBlocks, true, 0)
              else |results| == |ops| && views[|ops|] == ViewNow()
      ensures !aborted ==> Invariant()
      ensures !aborted ==> |UsedPages(hbSz, hbFree, pages)| + largeFree == heapSize
      ensures !aborted ==> UsedPages(hbSz, hbFree, pages) <= mapped
      ensures !aborted && old(tidy) && (forall op :: op in ops ==> !op.Unmap?) ==> tidy
    {
      hide Does, LinksOk, Tiles, Placed, Short, Total, NoAdjacent, MapAgrees, Indexes, HI.Index.Valid;
      results, views := [], [ViewNow()];
      for i := 0 to |ops|
        invariant Invariant() && |results| == i
        invariant Runs(ops, views, results, maxBlocks) && views[0] == old(ViewNow()) && views[i] == ViewNow()
        invariant old(tidy) && (forall op :: op in ops ==> !op.Unmap?) ==> tidy
      {
        var r;
        aborted, r := Step(ops[i]);
        if aborted {
          AbortsWith(ops[i], views[i], ViewNow(), maxBlocks, r);
          return;
        }
        results, views := results + [r], views + [ViewNow()];
      }
      Conserved();
      UsedMapped(hbSz, hbFree, pages, hbUnmapped, mapped);
      aborted := false;
    }

    // ---------- unmapping, and merging unmapped blocks

    /** GC_unmap_old: unmap the free blocks that have not been used for long enough. */
    method UnmapOld(aged: set<nat>)
      requires Consistent()
      modifies this`hbUnmapped, this`mapped
      ensures Consistent() && hbUnmapped == old(hbUnmapped) + hbFree * aged
    {
      hide LinksOk, Tiles, Placed, Short, Sum, Total, MapAgrees, ListFor, Indexes, HI.Index.Valid;
      UnmappedFree(hbSz, hbFree, hbUnmapped, mapped);
      LinksShape(hbSz, Links());
      ghost var before := hbUnmapped;
      var i := 0;
      while i <= N_HBLK_FLS
        invariant i <= N_HBLK_FLS + 1 && Consistent() && |lists| == N_HBLK_FLS + 1
        invariant before <= hbUnmapped <= before + hbFree * aged
        invariant forall a :: a in hbFree && a in aged && a in hbSz && ListFor(hbSz[a]) < i ==> a in hbUnmapped
      {
        UnmapList(i, aged, before);
        i := i + 1;
      }
      UnmappedAll(hbSz, hbFree, on, hbUnmapped, aged);
    }

    /** The loop over one list. */
    method UnmapList(i: nat, aged: set<nat>, ghost before: set<nat>)
      requires i <= N_HBLK_FLS && Consistent() && before <= hbUnmapped <= before + hbFree * aged
      modifies this`hbUnmapped, this`mapped
      ensures Consistent() && old(hbUnmapped) <= hbUnmapped <= before + hbFree * aged
      ensures forall a :: a in hbFree && a in aged && a in hbSz && ListFor(hbSz[a]) == i ==> a in hbUnmapped
    {
      hide LinksOk, Tiles, Placed, Short, Sum, Total, MapAgrees, ListFor, Indexes, HI.Index.Valid;
      LinksShape(hbSz, Links());
      ListPosition(hbSz, Links(), i, 0);
      var h := flHead[i];
      ghost var k := 0;
      while h != 0
        invariant Consistent() && old(hbUnmapped) <= hbUnmapped <= before + hbFree * aged
        invariant k <= |lists[i]| && h == (if k < |lists[i]| then lists[i][k] else 0)
        invariant forall j :: 0 <= j < k && lists[i][j] in aged ==> lists[i][j] in hbUnmapped
        decreases |lists[i]| - k
      {
        ListPosition(hbSz, Links(), i, k);
        ListedFacts(hbSz, hbFree, on, pages, h);
        if h !in hbUnmapped && h in aged {
          Unmapped(hbSz, hbFree, pages, hbUnmapped, mapped, h);
          mapped := mapped - Section(h, hbSz[h]);
          hbUnmapped := hbUnmapped + {h};
        }
        h, k := hbNext[h], k + 1;
      }
      ListPosition(hbSz, Links(), i, k);
      ListWhole(hbSz, hbFree, Links(), i);
    }

    /** Map or unmap one of the two blocks so that both are alike; the one that is not longer gives way. */
    method MapAlike(h: nat, next: nat)
      requires Tiles(hbSz, pages) && h in hbSz && next in hbSz && next == h + hbSz[h] && h in hbFree && next in hbFree
      requires MapOk()
      modifies this`hbUnmapped, this`mapped
      ensures MapOk() && Alike(hbUnmapped, h, next)
      ensures hbUnmapped == UnmappedAlike(hbSz, old(hbUnmapped), h, next)
      ensures mapped == MappedAlike(hbSz, old(hbUnmapped), old(mapped), h, next)
    {
      hide MapAgrees, Tiles, Section;
      var size, nextSize := hbSz[h], hbSz[next];
      if h !in hbUnmapped && next in hbUnmapped {
        if size > nextSize {
          Remapped(hbSz, hbFree, pages, hbUnmapped, mapped, next);
          mapped := mapped + Section(next, nextSize);
          hbUnmapped := hbUnmapped - {next};
        } else {
          Unmapped(hbSz, hbFree, pages, hbUnmapped, mapped, h);
          mapped := mapped - Section(h, size);
          hbUnmapped := hbUnmapped + {h};
        }
      } else if next !in hbUnmapped && h in hbUnmapped {
        if size > nextSize {
          Unmapped(hbSz, hbFree, pages, hbUnmapped, mapped, next);
          mapped := mapped - Section(next, nextSize);
          hbUnmapped := hbUnmapped + {next};
        } else {
          Remapped(hbSz, hbFree, pages, hbUnmapped, mapped, h);
          mapped := mapped + Section(h, size);
          hbUnmapped := hbUnmapped - {h};
        }
      }
    }

    /** Take h and its successor off their lists; the successor is no longer free. */
    method UnlistPair(h: nat, i: nat, next: nat)
      requires ValidBut(0) && h in on && h in hbSz && on[h] == i && next in hbFree && next != h
      modifies this`flHead, this`freeBytes, this`hbNext, this`hbPrev, this`lists, this`on, this`hbFree
      ensures ValidBut(h) && h !in on && next !in on && next in hbSz
      ensures hbFree == old(hbFree) - {next}
      ensures Total(freeBytes) + hbSz[h] + hbSz[next] == Total(old(freeBytes))
    {
      hide LinksOk, Tiles, Placed, Short, Sum, Total, Without;
      FreeListed(hbSz, hbFree, on, next);
      PlacedOff(hbSz, hbFree, on, h);
      PlacedUnlist(hbSz, hbFree, on - {h}, h, next);
      ghost var k := RemoveFromFlAt(h, i);
      k := RemoveFromFlAt(next, ListFor(hbSz[next]));
      hbFree := hbFree - {next};
    }

    ghost function Here(): Layout
      reads this
    {
      Layout(hbSz, hbFree, hbUnmapped, mapped)
    }

    /** Let the block h of list i absorb its free successor. */
    method MergeAt(h: nat, i: nat)
      requires Consistent() && h in on && h in hbSz && on[h] == i && Mergeable(hbSz, hbFree, maxBlocks, h)
      modifies this`flHead, this`freeBytes, this`hbNext, this`hbPrev, this`lists, this`on, this`hbFree,
               this`hbSz, this`hbUnmapped, this`mapped, headers
      ensures Consistent()
      ensures MergeStep(old(Here()), Here(), maxBlocks, h)
    {
      hide LinksOk, Tiles, Placed, Short, Sum, Total, Agree, Without, MapAgrees, Indexes, HI.Index.Valid;
      ListedFacts(hbSz, hbFree, on, pages, h);
      TilesPositive(hbSz, pages, h);
      var next := h + hbSz[h];
      MapAlike(h, next);
      UnmappedFree(hbSz, hbFree, hbUnmapped, mapped);
      MergedMap(hbSz, hbFree, hbUnmapped, mapped, h, hbFree - {next});
      hbUnmapped := hbUnmapped - {next};
      MergeHeaders(headers, hbSz, hbFree, h);
      UnlistPair(h, i, next);
      AbsorbNext(h);
      assert hbFree == old(hbFree) - {next};
    }

    /** GC_merge_unmapped: go through every list, starting it over after each merge.  The ghost result is the
        sequence of layouts, from the first to the last, each a merge of two free blocks away from the next. */
    method MergeUnmapped() returns (ghost trace: seq<Layout>)
      requires Consistent()
      modifies this`flHead, this`freeBytes, this`hbNext, this`hbPrev, this`lists, this`on, this`hbFree,
               this`hbSz, this`hbUnmapped, this`mapped, headers
      ensures Consistent() && (old(hbUnmapped) == {} ==> hbUnmapped == {})
      ensures SameInUse(old(hbSz), old(hbFree), hbSz, hbFree, 0)
      ensures forall a :: a in hbFree && a in hbSz ==> !Mergeable(hbSz, hbFree, maxBlocks, a)
      ensures MergeRun(trace, maxBlocks) && trace[0] == old(Here()) && trace[|trace| - 1] == Here()
    {
      hide LinksOk, Tiles, Placed, Short, Sum, Total, MapAgrees, SameInUse, NoneMergeable, Mergeable, MergeStep,
           Indexes, HI.Index.Valid;
      SameInUseSelf(hbSz, hbFree);
      NoneMergeableStart(hbSz, hbFree, maxBlocks);
      trace := [Here()];
      var i := 0;
      while i <= N_HBLK_FLS
        invariant i <= N_HBLK_FLS + 1
        invariant Consistent() && (old(hbUnmapped) == {} ==> hbUnmapped == {})
        invariant SameInUse(old(hbSz), old(hbFree), hbSz, hbFree, 0)
        invariant NoneMergeable(hbSz, hbFree, maxBlocks, i)
        invariant MergeRun(trace, maxBlocks) && trace[0] == old(Here()) && trace[|trace| - 1] == Here()
      {
        trace := MergeList(i, old(hbSz), old(hbFree), trace);
        i := i + 1;
      }
      AllUnmergeable(hbSz, hbFree, maxBlocks);
    }

    /** The loop over one list. */
    method MergeList(i: nat, ghost sz0: map<nat, nat>, ghost free0: set<nat>, ghost before: seq<Layout>)
      returns (ghost trace: seq<Layout>)
      requires i <= N_HBLK_FLS && Consistent()
      requires MergeRun(before, maxBlocks) && before[|before| - 1] == Here()
      requires SameInUse(sz0, free0, hbSz, hbFree, 0) && NoneMergeable(hbSz, hbFree, maxBlocks, i)
      modifies this`flHead, this`freeBytes, this`hbNext, this`hbPrev, this`lists, this`on, this`hbFree,
               this`hbSz, this`hbUnmapped, this`mapped, headers
      ensures Consistent() && (old(hbUnmapped) == {} ==> hbUnmapped == {})
      ensures SameInUse(sz0, free0, hbSz, hbFree, 0) && NoneMergeable(hbSz, hbFree, maxBlocks, i + 1)
      ensures MergeRun(trace, maxBlocks) && trace[0] == before[0] && trace[|trace| - 1] == Here()
    {
      hide LinksOk, Tiles, Placed, Short, Sum, Total, MapAgrees, SameInUse, NoneMergeable, PrefixUnmergeable, Merged,
           MergesTo, UnmappedAlike, MappedAlike, Indexes, HI.Index.Valid;
      trace := before;
      LinksShape(hbSz, Links());
      ListPosition(hbSz, Links(), i, 0);
      PrefixStart(hbSz, hbFree, maxBlocks, lists[i]);
      var h := flHead[i];
      ghost var k := 0;
      while h != 0
        invariant Consistent() && (old(hbUnmapped) == {} ==> hbUnmapped == {})
        invariant SameInUse(sz0, free0, hbSz, hbFree, 0) && NoneMergeable(hbSz, hbFree, maxBlocks, i)
        invariant |lists| == N_HBLK_FLS + 1 && k <= |lists[i]| && h == (if k < |lists[i]| then lists[i][k] else 0)
        invariant PrefixUnmergeable(hbSz, hbFree, maxBlocks, lists[i], k)
        invariant MergeRun(trace, maxBlocks) && trace[0] == before[0] && trace[|trace| - 1] == Here()
        decreases hbFree, |lists[i]| - k
      {
        ListPosition(hbSz, Links(), i, k);
        ListedFacts(hbSz, hbFree, on, pages, h);
        TilesPositive(hbSz, pages, h);
        var next := h + hbSz[h];
        if next in hbSz && next in hbFree && hbSz[h] + hbSz[next] <= maxBlocks {
          FreeListed(hbSz, hbFree, on, h);
          MergedNoneMergeable(hbSz, hbFree, pages, maxBlocks, h, i);
          MergedInUse(sz0, free0, hbSz, hbFree, h);
          MergeAt(h, i);
          NothingUnmapped(trace[|trace| - 1], Here(), maxBlocks, h);
          MergeRunMore(trace, maxBlocks, Here(), h);
          trace := trace + [Here()];
          LinksShape(hbSz, Links());
          ListPosition(hbSz, Links(), i, 0);
          PrefixStart(hbSz, hbFree, maxBlocks, lists[i]);
          h, k := flHead[i], 0;
        } else {
          PrefixNext(hbSz, hbFree, maxBlocks, lists[i], k);
          h, k := hbNext[h], k + 1;
        }
      }
      ListPosition(hbSz, Links(), i, k);
      ListDone(hbSz, hbFree, Links(), maxBlocks, i);
    }
  }
}
