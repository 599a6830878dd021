/**
 Free list placement, black-list admissibility and the effect of splitting, dropping, merging
 and freeing on the heap's blocks, as facts about values.  See HeapBlocks for the operations.
 */
module HeapLaws {
  import opened FreeLists
  import opened Tiling
  import BL = BlackList

  const UNIQUE_THRESHOLD: nat := 32
  const HUGE_THRESHOLD: nat := 256
  const FL_COMPRESSION: nat := 8
  const N_HBLK_FLS: nat := 60

  /** GC_hblk_fl_from_blocks: the free list for blocks of the given length. */
  function ListFor(blocks: nat): (i: nat)
    ensures i <= N_HBLK_FLS
  {
    if blocks <= UNIQUE_THRESHOLD then blocks
    else if blocks >= HUGE_THRESHOLD then N_HBLK_FLS
    else (blocks - UNIQUE_THRESHOLD) / FL_COMPRESSION + UNIQUE_THRESHOLD
  }

  /** Longer blocks are never on an earlier list, and below UNIQUE_THRESHOLD each list holds
      one length only. */
  lemma ListForMonotone(m: nat, n: nat)
    requires m <= n
    ensures ListFor(m) <= ListFor(n)
    ensures ListFor(m) == ListFor(n) && ListFor(m) < UNIQUE_THRESHOLD ==> m == n
  {
  }

  // ---------- requests and black lists

  datatype Kind = PtrFree | Normal | Uncollectable

  /** An allocation request for `blocks` heap blocks; blocks in `unsplit` serve it only from their start. */
  datatype Request = Request(blocks: nat, kind: Kind, ignoreOffPage: bool, unsplit: set<nat>)

  const MAX_BLACK_LIST_ALLOC: nat := 2

  /** The request when unmapped blocks are not to be remapped only to be split (AVOID_SPLIT_REMAPPED). */
  function Avoiding(req: Request, avoidRemap: bool, unmapped: set<nat>): Request {
    req.(unsplit := if avoidRemap then unmapped else {})
  }

  /** Requests of this kind must not start on a black-listed block. */
  predicate Checked(req: Request) {
    req.kind != Uncollectable && (req.kind != PtrFree || req.blocks > MAX_BLACK_LIST_ALLOC)
  }

  /** How many blocks from the start are looked up in the black lists. */
  function Looked(req: Request): nat {
    if req.ignoreOffPage then 1 else req.blocks
  }

  /** The request may be placed at s. */
  ghost predicate GoodStart(bl: BL.Lists, req: Request, s: nat)
    requires BL.Good(bl)
  {
    !Checked(req) || !BL.Listed(bl, s, Looked(req))
  }

  /** A very large request in a much larger block is placed regardless of black lists. */
  predicate Punted(blLimit: nat, req: Request, size: nat) {
    req.blocks > blLimit && size - req.blocks > blLimit
  }

  ghost predicate HasGoodStart(bl: BL.Lists, req: Request, b: nat, size: nat)
    requires BL.Good(bl)
  {
    exists s :: b <= s <= b + size - req.blocks && GoodStart(bl, req, s)
  }

  /** The request is placed at r in the free block of the given size at b: at the first start that is not
      black-listed, or at b if the request is punted. */
  ghost predicate GoodPlace(bl: BL.Lists, blLimit: nat, req: Request, b: nat, size: nat, r: nat)
    requires BL.Good(bl)
  {
    && b <= r && r + req.blocks <= b + size
    && (forall s :: b <= s < r ==> !GoodStart(bl, req, s))
    && if GoodStart(bl, req, r) then b in req.unsplit ==> r == b
       else r == b && Punted(blLimit, req, size) && !HasGoodStart(bl, req, b, size)
  }

  /** A free block of the given size at b can serve the request. */
  ghost predicate Admissible(bl: BL.Lists, blLimit: nat, req: Request, b: nat, size: nat)
    requires BL.Good(bl)
  {
    exists r :: GoodPlace(bl, blLimit, req, b, size, r)
  }

  lemma FirstGoodStart(bl: BL.Lists, req: Request, b: nat, size: nat) returns (s: nat)
    requires BL.Good(bl) && HasGoodStart(bl, req, b, size)
    ensures b <= s <= b + size - req.blocks && GoodStart(bl, req, s)
    ensures forall t :: b <= t < s ==> !GoodStart(bl, req, t)
  {
    var last: nat :| b <= last <= b + size - req.blocks && GoodStart(bl, req, last);
    s := b;
    while !GoodStart(bl, req, s)
      invariant b <= s <= last && forall t :: b <= t < s ==> !GoodStart(bl, req, t)
      decreases last - s
    {
      s := s + 1;
    }
  }

  /** All starts of the block are black-listed for a request of one block. */
  ghost predicate AllListed(bl: BL.Lists, req: Request, b: nat, size: nat)
    requires BL.Good(bl)
  {
    req.blocks == 1 && forall s :: b <= s < b + size ==> BL.Listed(bl, s, 1)
  }

  /** At most one place is right. */
  lemma OnePlace(bl: BL.Lists, blLimit: nat, req: Request, b: nat, size: nat, r: nat, s: nat)
    requires BL.Good(bl) && GoodPlace(bl, blLimit, req, b, size, r) && GoodPlace(bl, blLimit, req, b, size, s)
    ensures r == s
  {
  }

  /** Unless its start matters, a block can serve if it is long enough and has a start that is not
      black-listed, or is very long. */
  lemma AdmissibleAnywhere(bl: BL.Lists, blLimit: nat, req: Request, b: nat, size: nat)
    requires BL.Good(bl) && b !in req.unsplit
    ensures Admissible(bl, blLimit, req, b, size)
       <==> req.blocks <= size && (HasGoodStart(bl, req, b, size) || Punted(blLimit, req, size))
  {
    if req.blocks <= size {
      if HasGoodStart(bl, req, b, size) {
        var s := FirstGoodStart(bl, req, b, size);
        assert GoodPlace(bl, blLimit, req, b, size, s);
      } else if Punted(blLimit, req, size) {
        assert GoodPlace(bl, blLimit, req, b, size, b);
      }
    }
  }

  /** The search of a free block for a start that is not black-listed. */
  method Advance(bl: BL.Lists, req: Request, b: nat, size: nat) returns (last: nat)
    requires BL.Good(bl) && 1 <= req.blocks <= size
    ensures b <= last <= b + size
    ensures forall s :: b <= s < last ==> BL.Listed(bl, s, Looked(req))
    ensures last <= b + size - req.blocks ==> !BL.Listed(bl, last, Looked(req))
  {
    last := b;
    while last <= b + size - req.blocks
      invariant b <= last <= b + size
      invariant forall s :: b <= s < last ==> BL.Listed(bl, s, Looked(req))
      decreases b + size - last
    {
      var r := BL.IsBlackListed(bl, last, Looked(req));
      if r == 0 {
        return;
      }
      last := r;
    }
  }

  // ---------- what the operations do to block lengths and to the set of free blocks

  /** The lengths after n blocks at r are carved out of the block at b. */
  ghost function CarvedSz(sz: map<nat, nat>, b: nat, r: nat, n: nat): map<nat, nat>
    requires b in sz && b <= r && r + n <= b + sz[b]
  {
    var front := if b < r then sz[b := r - b] else sz;
    if r + n < b + sz[b] then front[r := n][r + n := b + sz[b] - (r + n)] else front[r := n]
  }

  ghost function CarvedFree(sz: map<nat, nat>, free: set<nat>, b: nat, r: nat, n: nat): set<nat>
    requires b in sz && b <= r && r + n <= b + sz[b]
  {
    free - {r} + (if r + n < b + sz[b] then {r + n} else {})
  }

  /** Since sz0, free0 and count0, only useless blocks were dropped, every fourth of those counted, and no two
      free blocks became adjacent. */
  ghost predicate DroppedSince(bl: BL.Lists, blLimit: nat, req: Request, sz0: map<nat, nat>, free0: set<nat>,
                               count0: nat, sz: map<nat, nat>, free: set<nat>, count: nat)
    requires BL.Good(bl)
  {
    && OnlyDropped(sz0, free0, sz, free) && DroppedUseless(bl, blLimit, req, sz0, free0, free)
    && (NoAdjacent(sz0, free0) ==> NoAdjacent(sz, free))
    && count >= count0 && |free0| - |free| == count / 4 - count0 / 4
  }

  lemma NothingDropped(bl: BL.Lists, blLimit: nat, req: Request, sz: map<nat, nat>, free: set<nat>, on: map<nat, nat>,
                       count: nat)
    requires BL.Good(bl) && Placed(sz, free, on, 0)
    ensures DroppedSince(bl, blLimit, req, sz, free, count, sz, free, count)
  {
  }

  lemma DroppedAgain(bl: BL.Lists, blLimit: nat, req: Request, sz: map<nat, nat>, free: set<nat>, count: nat,
                     sz1: map<nat, nat>, free1: set<nat>, count1: nat, sz2: map<nat, nat>, free2: set<nat>, count2: nat)
    requires BL.Good(bl) && DroppedSince(bl, blLimit, req, sz, free, count, sz1, free1, count1)
    requires DroppedSince(bl, blLimit, req, sz1, free1, count1, sz2, free2, count2)
    ensures DroppedSince(bl, blLimit, req, sz, free, count, sz2, free2, count2)
  {
    hide Admissible, NoAdjacent;
  }

  /** What is left after n blocks at r are carved out of the free block at b. */
  ghost predicate Carves(sz: map<nat, nat>, free: set<nat>, sz': map<nat, nat>, free': set<nat>, b: nat, r: nat, n: nat)
  {
    && b in free && b in sz && b <= r && r + n <= b + sz[b]
    && sz' == CarvedSz(sz, b, r, n) && free' == CarvedFree(sz, free, b, r, n)
  }

  /** Carving from the middle is splitting at r and then carving from the front. */
  lemma CarvedSteps(sz: map<nat, nat>, free: set<nat>, b: nat, r: nat, n: nat)
    requires b in sz && b in free && b <= r && r + n <= b + sz[b] && n >= 1
    ensures b < r ==> var sz1: map<nat, nat> := sz[b := r - b][r := b + sz[b] - r];
                      && CarvedSz(sz1, r, r, n) == CarvedSz(sz, b, r, n)
                      && free + {r} + (if n < sz1[r] then {r + n} else {}) - {r} == CarvedFree(sz, free, b, r, n)
    ensures b == r ==> free + (if n < sz[b] then {r + n} else {}) - {r} == CarvedFree(sz, free, b, r, n)
  {
  }

  lemma CarvedAt(sz: map<nat, nat>, b: nat, r: nat, n: nat)
    requires b in sz && b <= r && r + n <= b + sz[b] && n >= 1
    ensures r in CarvedSz(sz, b, r, n) && CarvedSz(sz, b, r, n)[r] == n
  {
  }

  ghost predicate NoAdjacent(sz: map<nat, nat>, free: set<nat>) {
    forall a :: a in free && a in sz ==> a + sz[a] !in free
  }

  /** Free blocks other than x are listed by their length; blocks that are not free are not
      listed. */
  ghost predicate Placed(sz: map<nat, nat>, free: set<nat>, on: map<nat, nat>, x: nat) {
    && free <= sz.Keys
    && 0 !in sz && 0 !in on
    && (forall a :: a in free && a != x ==> a in on && a in sz && on[a] == ListFor(sz[a]))
    && (forall a :: a in on && a != x ==> a in free)
  }

  /** No block is longer than a positive signed byte count allows. */
  ghost predicate Short(sz: map<nat, nat>, maxBlocks: nat) {
    forall a :: a in sz ==> sz[a] <= maxBlocks
  }

  /** Blocks in use stay as they are. */
  ghost predicate InUseKept(sz: map<nat, nat>, free: set<nat>, sz': map<nat, nat>, free': set<nat>) {
    forall a :: a in sz && a !in free ==> a in sz' && a !in free' && sz'[a] == sz[a]
  }

  /** Some free blocks went out of use and the others stayed; in-use blocks are untouched and
      no two free blocks became adjacent. */
  ghost predicate OnlyDropped(sz: map<nat, nat>, free: set<nat>, sz': map<nat, nat>, free': set<nat>) {
    && free <= sz.Keys && free' <= free && free' <= sz'.Keys
    && (forall a :: a in free' ==> sz'[a] == sz[a])
    && InUseKept(sz, free, sz', free')
  }

  /** The dropped blocks could not serve the request. */
  ghost predicate DroppedUseless(bl: BL.Lists, blLimit: nat, req: Request, sz: map<nat, nat>, free: set<nat>,
                                 free': set<nat>)
    requires BL.Good(bl)
  {
    forall a :: a in free && a !in free' && a in sz ==> !Admissible(bl, blLimit, req, a, sz[a])
  }

  /** The request was given blocks at r out of the free block at b, after some useless blocks were dropped. */
  ghost predicate Served(bl: BL.Lists, blLimit: nat, req: Request, sz: map<nat, nat>, free: set<nat>, count: nat,
                         sz': map<nat, nat>, free': set<nat>, count': nat, r: nat, b: nat)
    requires BL.Good(bl)
  {
    && b in free && b in sz && GoodPlace(bl, blLimit, req, b, sz[b], r)
    && exists sz1: map<nat, nat>, free1: set<nat> ::
         && DroppedSince(bl, blLimit, req, sz, free, count, sz1, free1, count')
         && Carves(sz1, free1, sz', free', b, r, req.blocks)
  }

  lemma CarvedServed(bl: BL.Lists, blLimit: nat, req: Request, sz: map<nat, nat>, free: set<nat>, count: nat,
                     sz1: map<nat, nat>, free1: set<nat>, count1: nat, r: nat, b: nat)
    requires BL.Good(bl) && DroppedSince(bl, blLimit, req, sz, free, count, sz1, free1, count1)
    requires b in free1 && b in sz1 && GoodPlace(bl, blLimit, req, b, sz1[b], r)
    ensures Served(bl, blLimit, req, sz, free, count, CarvedSz(sz1, b, r, req.blocks),
                   CarvedFree(sz1, free1, b, r, req.blocks), count1, r, b)
  {
    hide DroppedUseless, CarvedSz, CarvedFree, GoodStart, HasGoodStart, NoAdjacent;
    assert Carves(sz1, free1, CarvedSz(sz1, b, r, req.blocks), CarvedFree(sz1, free1, b, r, req.blocks), b, r,
                  req.blocks);
  }

  /** The blocks in use stay, and the blocks given are in use now. */
  lemma ServedKeeps(bl: BL.Lists, blLimit: nat, req: Request, sz: map<nat, nat>, free: set<nat>, count: nat,
                    pages: set<nat>, sz': map<nat, nat>, free': set<nat>, count': nat, r: nat, b: nat)
    requires BL.Good(bl) && Tiles(sz, pages) && req.blocks >= 1
    requires Served(bl, blLimit, req, sz, free, count, sz', free', count', r, b)
    ensures r in sz' && sz'[r] == req.blocks && r !in free' && InUseKept(sz, free, sz', free')
  {
    hide DroppedUseless, NoAdjacent;
    assert forall a :: a in sz && a !in free ==> !(b <= a < b + sz[b]);
  }

  lemma CarvedNoAdjacent(sz: map<nat, nat>, free: set<nat>, pages: set<nat>, b: nat, r: nat, n: nat)
    requires Tiles(sz, pages) && free <= sz.Keys && NoAdjacent(sz, free)
    requires b in free && b in sz && b <= r && r + n <= b + sz[b] && n >= 1
    ensures CarvedFree(sz, free, b, r, n) <= CarvedSz(sz, b, r, n).Keys
    ensures NoAdjacent(CarvedSz(sz, b, r, n), CarvedFree(sz, free, b, r, n))
  {
    var sz', free' := CarvedSz(sz, b, r, n), CarvedFree(sz, free, b, r, n);
    forall a | a in free'
      ensures a in sz' && a + sz'[a] !in free'
    {
      if a != b && a != r + n {
        assert a in free && a in sz;
      }
    }
  }

  lemma ServedAfterDrop(bl: BL.Lists, blLimit: nat, req: Request, sz: map<nat, nat>, free: set<nat>, count: nat,
                        sz1: map<nat, nat>, free1: set<nat>, count1: nat,
                        sz2: map<nat, nat>, free2: set<nat>, count2: nat, r: nat, b: nat)
    requires BL.Good(bl) && DroppedSince(bl, blLimit, req, sz, free, count, sz1, free1, count1)
    requires Served(bl, blLimit, req, sz1, free1, count1, sz2, free2, count2, r, b)
    ensures Served(bl, blLimit, req, sz, free, count, sz2, free2, count2, r, b)
  {
    hide GoodPlace, Carves, Admissible;
    var szd: map<nat, nat>, freed: set<nat> :|
      DroppedSince(bl, blLimit, req, sz1, free1, count1, szd, freed, count2)
      && Carves(szd, freed, sz2, free2, b, r, req.blocks);
    DroppedAgain(bl, blLimit, req, sz, free, count, sz1, free1, count1, szd, freed, count2);
  }

  /** What the search through list i must not have missed: a free block of the list that could
      serve the request (an exactly fitting one if blocks may not be split). */
  ghost predicate Missed(bl: BL.Lists, blLimit: nat, req: Request, maySplit: bool, a: nat, size: nat)
    requires BL.Good(bl)
  {
    (maySplit || size == req.blocks) && Admissible(bl, blLimit, req, a, size)
  }

  /** The jth block of the list is not split: the next one is shorter, long enough, and does not start
      black-listed. */
  ghost predicate PassedOver(bl: BL.Lists, req: Request, maySplit: bool, sz: map<nat, nat>, L: seq<nat>, j: nat)
    requires BL.Good(bl) && j < |L|
  {
    && maySplit && j + 1 < |L| && L[j] in sz && L[j + 1] in sz
    && req.blocks <= sz[L[j + 1]] < sz[L[j]] && !BL.Listed(bl, L[j + 1], req.blocks)
  }

  /** None of the first k blocks of the list is one to serve the request. */
  ghost predicate NoneBefore(bl: BL.Lists, blLimit: nat, req: Request, maySplit: bool, sz: map<nat, nat>,
                             L: seq<nat>, k: nat)
    requires BL.Good(bl) && k <= |L|
  {
    forall j: nat :: j < k && L[j] in sz ==>
      PassedOver(bl, req, maySplit, sz, L, j) || !Missed(bl, blLimit, req, maySplit, L[j], sz[L[j]])
  }

  /** The request is served from b: the first block of the list that could serve and is not passed over. */
  ghost predicate FirstOf(bl: BL.Lists, blLimit: nat, req: Request, maySplit: bool, sz: map<nat, nat>,
                          L: seq<nat>, b: nat)
    requires BL.Good(bl)
  {
    b in sz && Missed(bl, blLimit, req, maySplit, b, sz[b]) &&
    exists k: nat :: k < |L| && L[k] == b && !PassedOver(bl, req, maySplit, sz, L, k)
                     && NoneBefore(bl, blLimit, req, maySplit, sz, L, k)
  }

  lemma NoneBeforeNone(bl: BL.Lists, blLimit: nat, req: Request, maySplit: bool, sz: map<nat, nat>, L: seq<nat>)
    requires BL.Good(bl)
    ensures NoneBefore(bl, blLimit, req, maySplit, sz, L, 0)
  {
  }

  /** Only list i changed, and what comes from its kth block on is what came from its k0th on. */
  ghost predicate GoneOn(lists0: seq<seq<nat>>, lists: seq<seq<nat>>, i: nat, k0: nat, k: nat) {
    && |lists| == |lists0| && i < |lists| && k <= |lists[i]| && k0 <= |lists0[i]|
    && lists[i][k..] == lists0[i][k0..]
    && forall j :: 0 <= j < |lists| && j != i ==> lists[j] == lists0[j]
  }

  lemma GoneOnStart(lists: seq<seq<nat>>, i: nat)
    requires i < |lists|
    ensures GoneOn(lists, lists, i, 0, 0)
  {
  }

  lemma GoneOnEnd(lists0: seq<seq<nat>>, lists: seq<seq<nat>>, i: nat, k0: nat, k: nat)
    requires GoneOn(lists0, lists, i, k0, k)
    ensures |lists| == |lists0| && k <= |lists[i]| && k0 <= |lists0[i]|
    ensures k < |lists[i]| <==> k0 < |lists0[i]|
  {
    assert |lists[i][k..]| == |lists0[i][k0..]|;
  }

  /** After one more block, which may have been dropped. */
  lemma GoneOnNext(lists0: seq<seq<nat>>, lists: seq<seq<nat>>, i: nat, k0: nat, k: nat, lists1: seq<seq<nat>>, k1: nat)
    requires GoneOn(lists0, lists, i, k0, k) && GoneOn(lists, lists1, i, k + 1, k1)
    ensures k0 < |lists0[i]| && GoneOn(lists0, lists1, i, k0 + 1, k1)
  {
    assert |lists[i][k..]| == |lists0[i][k0..]|;
    assert lists0[i][k0 + 1..] == lists0[i][k0..][1..] == lists[i][k..][1..] == lists[i][k + 1..];
  }

  lemma GoneOnSame(lists: seq<seq<nat>>, i: nat, k: nat)
    requires i < |lists| && k <= |lists[i]|
    ensures GoneOn(lists, lists, i, k, k)
  {
  }

  /** What comes on the list as it is now is what came on it before, with the lengths it had. */
  lemma SameNext(bl: BL.Lists, req: Request, maySplit: bool, sz: map<nat, nat>, free: set<nat>,
                 sz1: map<nat, nat>, free1: set<nat>, L: seq<nat>, k: nat, L1: seq<nat>, k1: nat)
    requires BL.Good(bl) && OnlyDropped(sz, free, sz1, free1) && k < |L| && k1 < |L1| && L[k..] == L1[k1..]
    requires forall a :: a in L1 ==> a in free1
    ensures L[k] == L1[k1] && L[k] in sz && L[k] in sz1 && sz[L[k]] == sz1[L1[k1]]
    ensures PassedOver(bl, req, maySplit, sz, L, k) <==> PassedOver(bl, req, maySplit, sz1, L1, k1)
  {
    hide BL.Listed;
    assert L[k] == L[k..][0] && L1[k1] == L1[k1..][0];
    if k + 1 < |L| {
      assert L[k + 1] == L[k..][1] && L1[k1 + 1] == L1[k1..][1];
    }
  }

  lemma NextOnList(bl: BL.Lists, blLimit: nat, req: Request, maySplit: bool, sz: map<nat, nat>, free: set<nat>,
                   f: FreeLists.Links, sz0: map<nat, nat>, free0: set<nat>, count0: nat, count: nat,
                   lists0: seq<seq<nat>>, i: nat, k0: nat, k: nat)
    requires BL.Good(bl) && DroppedSince(bl, blLimit, req, sz0, free0, count0, sz, free, count)
    requires LinksOk(sz, f) && Placed(sz, free, f.on, 0)
    requires GoneOn(lists0, f.lists, i, k0, k) && k < |f.lists[i]|
    ensures k0 < |lists0[i]| && f.lists[i][k] == lists0[i][k0] && f.lists[i][k] != 0
    ensures var h := f.lists[i][k];
            && h in sz0 && h in sz && sz0[h] == sz[h]
            && (PassedOver(bl, req, maySplit, sz0, lists0[i], k0)
                <==> PassedOver(bl, req, maySplit, sz, f.lists[i], k))
  {
    hide LinksOk, Placed, OnlyDropped, DroppedUseless, NoAdjacent, BL.Listed;
    ListPosition(sz, f, i, k);
    ListFacts(sz, free, f, i);
    GoneOnEnd(lists0, f.lists, i, k0, k);
    SameNext(bl, req, maySplit, sz0, free0, sz, free, lists0[i], k0, f.lists[i], k);
  }

  lemma NoneBeforeNext(bl: BL.Lists, blLimit: nat, req: Request, maySplit: bool, sz: map<nat, nat>, L: seq<nat>, k: nat)
    requires BL.Good(bl) && k < |L| && L[k] in sz && NoneBefore(bl, blLimit, req, maySplit, sz, L, k)
    requires PassedOver(bl, req, maySplit, sz, L, k) || !Missed(bl, blLimit, req, maySplit, L[k], sz[L[k]])
    ensures NoneBefore(bl, blLimit, req, maySplit, sz, L, k + 1)
  {
    hide PassedOver, Missed;
  }

  /** The last of a chain of blocks passed over would serve. */
  lemma {:induction false} NoneMissed(bl: BL.Lists, blLimit: nat, req: Request, maySplit: bool, sz: map<nat, nat>,
                                      L: seq<nat>, j: nat)
    requires BL.Good(bl) && j < |L| && L[j] in sz && NoneBefore(bl, blLimit, req, maySplit, sz, L, |L|)
    requires req.blocks >= 1
    ensures !Missed(bl, blLimit, req, maySplit, L[j], sz[L[j]])
    decreases |L| - j
  {
    hide Admissible;
    if PassedOver(bl, req, maySplit, sz, L, j) {
      CleanStartAdmissible(bl, blLimit, req, L[j + 1], sz[L[j + 1]]);
      NoneMissed(bl, blLimit, req, maySplit, sz, L, j + 1);
    }
  }

  lemma FirstOfHere(bl: BL.Lists, blLimit: nat, req: Request, maySplit: bool, sz: map<nat, nat>, L: seq<nat>, k: nat)
    requires BL.Good(bl) && k < |L| && L[k] in sz && NoneBefore(bl, blLimit, req, maySplit, sz, L, k)
    requires !PassedOver(bl, req, maySplit, sz, L, k) && Missed(bl, blLimit, req, maySplit, L[k], sz[L[k]])
    ensures FirstOf(bl, blLimit, req, maySplit, sz, L, L[k])
  {
    hide NoneBefore, PassedOver, Missed;
  }

  lemma MissedIs(bl: BL.Lists, blLimit: nat, req: Request, maySplit: bool, a: nat, size: nat)
    requires BL.Good(bl)
    ensures Missed(bl, blLimit, req, maySplit, a, size)
       <==> (maySplit || size == req.blocks) && Admissible(bl, blLimit, req, a, size)
    ensures size < req.blocks ==> !Admissible(bl, blLimit, req, a, size)
  {
  }

  /** Dropping useless blocks elsewhere does not change which block of a list is chosen. */
  lemma FirstOfBefore(bl: BL.Lists, blLimit: nat, req: Request, maySplit: bool, sz: map<nat, nat>, free: set<nat>,
                      sz1: map<nat, nat>, free1: set<nat>, L: seq<nat>, b: nat)
    requires BL.Good(bl) && OnlyDropped(sz, free, sz1, free1) && forall a :: a in L ==> a in free1
    requires FirstOf(bl, blLimit, req, maySplit, sz1, L, b)
    ensures FirstOf(bl, blLimit, req, maySplit, sz, L, b)
  {
    hide Missed, BL.Listed;
    var k: nat :| k < |L| && L[k] == b && !PassedOver(bl, req, maySplit, sz1, L, k)
                  && NoneBefore(bl, blLimit, req, maySplit, sz1, L, k);
    assert forall j: nat :: j < |L| ==> L[j] in sz && L[j] in sz1 && sz[L[j]] == sz1[L[j]];
    assert forall j: nat :: j < |L| ==>
      (PassedOver(bl, req, maySplit, sz, L, j) <==> PassedOver(bl, req, maySplit, sz1, L, j));
  }

  lemma SamePosition(L: seq<nat>, j: nat, k: nat)
    requires NoDuplicates(L) && j < |L| && k < |L| && L[j] == L[k]
    ensures j == k
  {
  }

  lemma ListFacts(sz: map<nat, nat>, free: set<nat>, f: FreeLists.Links, i: nat)
    requires LinksOk(sz, f) && Placed(sz, free, f.on, 0) && i < |f.lists|
    ensures NoDuplicates(f.lists[i]) && forall a :: a in f.lists[i] ==> a in free
  {
    assert Linked(f.next, f.prev, f.head[i], f.lists[i]);
  }

  lemma CleanStartAdmissible(bl: BL.Lists, blLimit: nat, req: Request, b: nat, size: nat)
    requires BL.Good(bl) && 1 <= req.blocks <= size && !BL.Listed(bl, b, req.blocks)
    ensures Admissible(bl, blLimit, req, b, size)
  {
    BL.ListedMonotone(bl, b, Looked(req), req.blocks);
    assert GoodPlace(bl, blLimit, req, b, size, b);
  }

  /** The list has all free blocks whose length belongs on it. */
  ghost predicate Holds(sz: map<nat, nat>, free: set<nat>, L: seq<nat>, i: nat) {
    && (forall a :: a in free && a in sz && ListFor(sz[a]) == i ==> a in L)
    && (forall a :: a in L ==> a in free && a in sz && ListFor(sz[a]) == i)
  }

  lemma ListHolds(sz: map<nat, nat>, free: set<nat>, f: FreeLists.Links, i: nat)
    requires LinksOk(sz, f) && Placed(sz, free, f.on, 0) && i < |f.lists|
    ensures Holds(sz, free, f.lists[i], i)
  {
  }

  /** Having come to the end of the list means that nothing was missed on it. */
  lemma ListSearched(bl: BL.Lists, blLimit: nat, req: Request, maySplit: bool, sz: map<nat, nat>, free: set<nat>,
                     L: seq<nat>, i: nat)
    requires BL.Good(bl) && Holds(sz, free, L, i) && NoneBefore(bl, blLimit, req, maySplit, sz, L, |L|)
    requires req.blocks >= 1
    ensures forall a :: a in free && a in sz && ListFor(sz[a]) == i ==> !Missed(bl, blLimit, req, maySplit, a, sz[a])
  {
    hide Missed, NoneBefore;
    forall a | a in free && a in sz && ListFor(sz[a]) == i
      ensures !Missed(bl, blLimit, req, maySplit, a, sz[a])
    {
      var j :| 0 <= j < |L| && L[j] == a;
      NoneMissed(bl, blLimit, req, maySplit, sz, L, j);
    }
  }

  /** The first list searched with splitting allowed: the exactly fitting list is skipped if all
      its blocks fit exactly. */
  function FirstSplit(req: Request): nat {
    var start := ListFor(req.blocks);
    if start < UNIQUE_THRESHOLD then start + 1 else start
  }

  /** Free blocks of this length are looked at: exact fits first, then whole lists below limit. */
  predicate Searched(req: Request, limit: nat, size: nat) {
    size == req.blocks || FirstSplit(req) <= ListFor(size) < limit
  }

  /** No free block among those searched could serve the request. */
  ghost predicate NoneFound(bl: BL.Lists, blLimit: nat, req: Request, limit: nat, sz: map<nat, nat>, free: set<nat>)
    requires BL.Good(bl)
  {
    forall a :: a in free && a in sz && Searched(req, limit, sz[a]) ==> !Admissible(bl, blLimit, req, a, sz[a])
  }

  /** Which free block serves the request: the first choice among the exact fits if one of them can serve,
      else the first choice on the lowest list that has a block to serve, among the lists below limit. */
  ghost predicate Chosen(bl: BL.Lists, blLimit: nat, req: Request, limit: nat, sz: map<nat, nat>, free: set<nat>,
                         lists: seq<seq<nat>>, b: nat)
    requires BL.Good(bl) && b in sz
  {
    if !NoneFound(bl, blLimit, req, 0, sz, free) then
      ListFor(req.blocks) < |lists| && FirstOf(bl, blLimit, req, false, sz, lists[ListFor(req.blocks)], b)
    else
      var i := ListFor(sz[b]);
      && FirstSplit(req) <= i < limit && NoneFound(bl, blLimit, req, i, sz, free)
      && i < |lists| && FirstOf(bl, blLimit, req, true, sz, lists[i], b)
  }

  lemma FirstSplitList(req: Request)
    requires req.blocks >= 1
    ensures FirstSplit(req) > ListFor(req.blocks) || req.blocks != 1
  {
  }

  lemma NoneFoundBelow(bl: BL.Lists, blLimit: nat, req: Request, i: nat, sz: map<nat, nat>, free: set<nat>)
    requires BL.Good(bl) && NoneFound(bl, blLimit, req, 0, sz, free) && i == FirstSplit(req)
    ensures NoneFound(bl, blLimit, req, i, sz, free)
  {
  }

  lemma ChosenExact(bl: BL.Lists, blLimit: nat, req: Request, limit: nat, sz: map<nat, nat>, free: set<nat>,
                    lists: seq<seq<nat>>, b: nat)
    requires BL.Good(bl) && ListFor(req.blocks) < |lists|
    requires FirstOf(bl, blLimit, req, false, sz, lists[ListFor(req.blocks)], b) && b in free && b in sz
    ensures Chosen(bl, blLimit, req, limit, sz, free, lists, b)
  {
    hide Admissible, NoneBefore, PassedOver;
  }

  lemma ChosenSplit(bl: BL.Lists, blLimit: nat, req: Request, limit: nat, sz: map<nat, nat>, free: set<nat>,
                    sz1: map<nat, nat>, free1: set<nat>, lists: seq<seq<nat>>, i: nat, b: nat)
    requires BL.Good(bl) && OnlyDropped(sz, free, sz1, free1) && i < |lists| && Holds(sz1, free1, lists[i], i)
    requires FirstSplit(req) <= i < limit && NoneFound(bl, blLimit, req, 0, sz, free)
    requires NoneFound(bl, blLimit, req, i, sz, free) && FirstOf(bl, blLimit, req, true, sz1, lists[i], b)
    ensures b in sz && Chosen(bl, blLimit, req, limit, sz, free, lists, b)
  {
    hide NoneFound, NoneBefore, PassedOver, Missed;
    FirstOfBefore(bl, blLimit, req, true, sz, free, sz1, free1, lists[i], b);
  }

  /** A chosen block is among those searched. */
  lemma ChosenFound(bl: BL.Lists, blLimit: nat, req: Request, limit: nat, sz: map<nat, nat>, free: set<nat>,
                    lists: seq<seq<nat>>, b: nat)
    requires BL.Good(bl) && b in sz && b in free && Chosen(bl, blLimit, req, limit, sz, free, lists, b)
    ensures !NoneFound(bl, blLimit, req, limit, sz, free) && Searched(req, limit, sz[b])
  {
    hide Admissible, NoneBefore, PassedOver;
  }

  /** With the split limit at the last list every block that is long enough is looked at. */
  lemma AllSearched(bl: BL.Lists, blLimit: nat, req: Request, sz: map<nat, nat>, free: set<nat>)
    requires BL.Good(bl) && NoneFound(bl, blLimit, req, N_HBLK_FLS + 1, sz, free)
    ensures forall a :: a in free && a in sz ==> !Admissible(bl, blLimit, req, a, sz[a])
  {
    forall a | a in free && a in sz
      ensures !Admissible(bl, blLimit, req, a, sz[a])
    {
      if req.blocks <= sz[a] {
        ListForMonotone(req.blocks, sz[a]);
        assert Searched(req, N_HBLK_FLS + 1, sz[a]);
      }
    }
  }

  /** One more list searched in vain. */
  lemma SearchedMore(bl: BL.Lists, blLimit: nat, req: Request, i: nat, sz: map<nat, nat>, free: set<nat>,
                     sz1: map<nat, nat>, free1: set<nat>)
    requires BL.Good(bl) && OnlyDropped(sz, free, sz1, free1) && DroppedUseless(bl, blLimit, req, sz, free, free1)
    requires forall a :: a in free1 && a in sz1 && ListFor(sz1[a]) == i ==> !Missed(bl, blLimit, req, true, a, sz1[a])
    requires NoneFound(bl, blLimit, req, i, sz, free) && FirstSplit(req) <= i
    ensures NoneFound(bl, blLimit, req, i + 1, sz, free)
  {
    hide Admissible, FirstSplit, ListFor;
  }

  lemma NoneFoundStart(bl: BL.Lists, blLimit: nat, req: Request, sz: map<nat, nat>, free: set<nat>)
    requires BL.Good(bl)
    requires forall a :: a in free && a in sz && ListFor(sz[a]) == ListFor(req.blocks) ==>
               !Missed(bl, blLimit, req, false, a, sz[a])
    ensures NoneFound(bl, blLimit, req, 0, sz, free)
  {
  }

  lemma NoneFoundMore(bl: BL.Lists, blLimit: nat, req: Request, i: nat, limit: nat, sz: map<nat, nat>, free: set<nat>)
    requires BL.Good(bl) && NoneFound(bl, blLimit, req, i, sz, free) && limit <= i
    ensures NoneFound(bl, blLimit, req, limit, sz, free)
  {
  }

  lemma ServedAdmissible(bl: BL.Lists, blLimit: nat, req: Request, sz: map<nat, nat>, free: set<nat>,
                         count: nat, sz': map<nat, nat>, free': set<nat>, count': nat, r: nat, b: nat)
    requires BL.Good(bl) && Served(bl, blLimit, req, sz, free, count, sz', free', count', r, b)
    ensures b in free && b in sz && Admissible(bl, blLimit, req, b, sz[b])
  {
    hide GoodPlace, Carves, DroppedSince;
  }

  /** A request beyond the signed byte count fits no block. */
  lemma TooLong(bl: BL.Lists, blLimit: nat, req: Request, maxBlocks: nat, sz: map<nat, nat>, free: set<nat>,
                on: map<nat, nat>, limit: nat)
    requires BL.Good(bl) && Short(sz, maxBlocks) && req.blocks > maxBlocks && Placed(sz, free, on, 0)
    ensures NoneFound(bl, blLimit, req, limit, sz, free)
    ensures forall a :: a in free && a in sz ==> !Admissible(bl, blLimit, req, a, sz[a])
  {
  }

  /** The lengths after the first j blocks at h became blocks of their own. */
  ghost function Chopped(sz: map<nat, nat>, h: nat, j: nat): map<nat, nat> {
    if j == 0 then sz else Chopped(sz, h, j - 1)[h + j - 1 := 1]
  }

  lemma {:induction false} ChoppedAt(sz: map<nat, nat>, h: nat, j: nat)
    ensures Chopped(sz, h, j).Keys >= sz.Keys
    ensures forall a :: a in Chopped(sz, h, j) <==> a in sz || h <= a < h + j
    ensures forall a :: a in Chopped(sz, h, j) ==> Chopped(sz, h, j)[a] == if h <= a < h + j then 1 else sz[a]
  {
    if j > 0 {
      ChoppedAt(sz, h, j - 1);
    }
  }

  lemma SetTwice(m: map<nat, nat>, k: nat, v: nat, w: nat)
    ensures m[k := v][k := w] == m[k := w]
  {
  }

  /** Chopping off one more single block. */
  lemma ChopOne(sz: map<nat, nat>, pages: set<nat>, a: nat, n: nat)
    requires n > 0 && Tiles(sz[a := n], pages)
    ensures if n > 1 then Tiles(sz[a := 1][a + 1 := n - 1], pages) else Tiles(sz[a := 1], pages)
  {
    hide Tiles;
    if n > 1 {
      TilesSplit(sz[a := n], pages, a, 1);
      SetTwice(sz, a, n, 1);
    }
  }

  /** Chopping a whole block into single ones keeps the tiling. */
  lemma {:induction false} ChoppedTiles(sz: map<nat, nat>, pages: set<nat>, h: nat, j: nat)
    requires h in sz && Tiles(sz, pages) && 1 <= j <= sz[h]
    ensures if j < sz[h] then Tiles(Chopped(sz, h, j)[h + j := sz[h] - j], pages) else Tiles(Chopped(sz, h, j), pages)
  {
    hide Tiles;
    if j == 1 {
      assert sz[h := sz[h]] == sz;
      assert Chopped(sz, h, 0) == sz;
      ChopOne(sz, pages, h, sz[h]);
    } else {
      ChoppedTiles(sz, pages, h, j - 1);
      ChopOne(Chopped(sz, h, j - 1), pages, h + j - 1, sz[h] - (j - 1));
    }
  }

  /** Lengths that differ from sz only by single blocks inside block h. */
  ghost predicate Chops(sz: map<nat, nat>, sz': map<nat, nat>, h: nat)
    requires h in sz
  {
    && sz[h] > 0
    && (forall a :: a in sz' <==> a in sz || h <= a < h + sz[h])
    && (forall a :: a in sz' && h <= a < h + sz[h] ==> sz'[a] == 1)
    && (forall a :: a in sz && a != h ==> a in sz' && sz'[a] == sz[a] && !(h <= a < h + sz[h]))
  }

  lemma ChoppedChops(sz: map<nat, nat>, pages: set<nat>, h: nat)
    requires Tiles(sz, pages) && h in sz
    ensures Chops(sz, Chopped(sz, h, sz[h]), h) && sz[h] > 0
  {
    hide Chopped;
    ChoppedAt(sz, h, sz[h]);
  }

  /** Dropping the free block h leaves everything else in order. */
  lemma ChopsDropped(sz: map<nat, nat>, free: set<nat>, sz': map<nat, nat>, h: nat)
    requires free <= sz.Keys && h in free && h in sz && Chops(sz, sz', h)
    ensures OnlyDropped(sz, free, sz', free - {h})
    ensures NoAdjacent(sz, free) ==> NoAdjacent(sz', free - {h})
  {
  }

  lemma ChopsPlaced(sz: map<nat, nat>, free: set<nat>, on: map<nat, nat>, sz': map<nat, nat>, h: nat, maxBlocks: nat)
    requires Placed(sz, free, on, 0) && h in free && h in sz && Chops(sz, sz', h) && Short(sz, maxBlocks)
    requires 1 <= maxBlocks
    ensures Placed(sz', free - {h}, on - {h}, 0) && Short(sz', maxBlocks)
  {
  }

  /** Dropping the free block h, in all respects. */
  lemma ChopLaws(sz: map<nat, nat>, free: set<nat>, on: map<nat, nat>, pages: set<nat>, h: nat, maxBlocks: nat)
    requires Tiles(sz, pages) && Placed(sz, free, on, 0) && h in sz && h in free && Short(sz, maxBlocks)
    requires 1 <= maxBlocks
    ensures var sz' := Chopped(sz, h, sz[h]);
            && sz[h] > 0 && Chops(sz, sz', h) && Tiles(sz', pages)
            && Placed(sz', free - {h}, on - {h}, 0) && Short(sz', maxBlocks)
            && OnlyDropped(sz, free, sz', free - {h})
            && (NoAdjacent(sz, free) ==> NoAdjacent(sz', free - {h}))
  {
    var sz' := Chopped(sz, h, sz[h]);
    ChoppedChops(sz, pages, h);
    ChoppedTiles(sz, pages, h, sz[h]);
    ChopsPlaced(sz, free, on, sz', h, maxBlocks);
    ChopsDropped(sz, free, sz', h);
  }

  lemma ChopsAgree(sz: map<nat, nat>, sz': map<nat, nat>, on: map<nat, nat>, h: nat)
    requires h in sz && h !in on && Chops(sz, sz', h) && on.Keys <= sz.Keys
    ensures Agree(sz, sz', on)
  {
  }

  lemma InsideNotFree(sz: map<nat, nat>, free: set<nat>, pages: set<nat>, h: nat)
    requires Tiles(sz, pages) && h in sz && free <= sz.Keys
    ensures forall p :: h < p < h + sz[h] ==> p !in free
  {
    forall p | h < p < h + sz[h]
      ensures p !in free
    {
      NoneInside(sz, pages, h, p - h);
    }
  }

  lemma ListedFacts(sz: map<nat, nat>, free: set<nat>, on: map<nat, nat>, pages: set<nat>, h: nat)
    requires Placed(sz, free, on, 0) && Tiles(sz, pages) && h in sz
    ensures h != 0 && (h in on ==> h in free) && free <= sz.Keys
  {
  }

  lemma PlacedSplit(sz: map<nat, nat>, free: set<nat>, on: map<nat, nat>, h: nat, n: nat, index: nat)
    requires Placed(sz, free, on, 0) && h in on && h in free && h in sz && h < n < h + sz[h]
    ensures Placed(sz[h := n - h][n := h + sz[h] - n], free + {h} + {n}, (on - {h})[n := index][h := ListFor(n - h)], n)
  {
  }

  /** The second part n stands at place k of list index, where h was, and h at the front of its own list. */
  ghost predicate ListsSplit(lists: seq<seq<nat>>, lists': seq<seq<nat>>, index: nat, k: nat, h: nat, n: nat) {
    && h < n && index < |lists| && ListFor(n - h) < |lists| && k < |lists[index]| && lists[index][k] == h
    && var replaced := lists[index := Replaced(lists[index], k, n)];
       lists' == replaced[ListFor(n - h) := [h] + replaced[ListFor(n - h)]]
  }

  lemma ShortSplit(sz: map<nat, nat>, maxBlocks: nat, h: nat, n: nat)
    requires Short(sz, maxBlocks) && h in sz && n <= sz[h]
    ensures Short(sz[h := n][h + n := sz[h] - n], maxBlocks)
  {
  }

  lemma FreeListed(sz: map<nat, nat>, free: set<nat>, on: map<nat, nat>, a: nat)
    requires Placed(sz, free, on, 0) && a in free
    ensures a in sz && a != 0 && a in on && on[a] == ListFor(sz[a])
  {
  }

  lemma PlacedExcept(sz: map<nat, nat>, free: set<nat>, on: map<nat, nat>, b: nat)
    requires Placed(sz, free, on, 0)
    ensures Placed(sz, free, on, b)
  {
  }

  lemma PlacedInUse(sz: map<nat, nat>, free: set<nat>, on: map<nat, nat>, b: nat)
    requires Placed(sz, free, on, b) && b !in on
    ensures Placed(sz, free - {b}, on, 0)
  {
  }

  lemma TilesPositive(sz: map<nat, nat>, pages: set<nat>, h: nat)
    requires Tiles(sz, pages) && h in sz
    ensures sz[h] > 0 && h > 0
  {
  }

  lemma PlacedFirstPart(sz: map<nat, nat>, free: set<nat>, on: map<nat, nat>, pages: set<nat>, h: nat, n: nat)
    requires Placed(sz, free, on, h) && Tiles(sz, pages) && h in sz && 1 <= n <= sz[h]
    ensures Placed(sz, free, on - {h}, h)
    ensures n < sz[h] ==> h + n !in on && h + n !in sz
    ensures n < sz[h] ==>
              Placed(sz[h := n][h + n := sz[h] - n], free + {h + n}, (on - {h})[h + n := ListFor(sz[h] - n)], h)
  {
    if n < sz[h] {
      TilesSplit(sz, pages, h, n);
    }
  }

  // ---------- merging

  lemma PlacedUnlist(sz: map<nat, nat>, free: set<nat>, on: map<nat, nat>, x: nat, a: nat)
    requires Placed(sz, free, on, x)
    ensures Placed(sz, free - {a}, on - {a}, x)
  {
  }

  lemma PlacedOff(sz: map<nat, nat>, free: set<nat>, on: map<nat, nat>, a: nat)
    requires Placed(sz, free, on, 0)
    ensures Placed(sz, free, on - {a}, a)
  {
  }

  lemma PlacedBack(sz: map<nat, nat>, free: set<nat>, on: map<nat, nat>, a: nat)
    requires Placed(sz, free, on, a) && a in sz && a !in on
    ensures Placed(sz, free + {a}, on[a := ListFor(sz[a])], 0)
  {
  }

  /** Absorbing a successor that is neither free nor listed any more. */
  lemma MergedPlaced(sz: map<nat, nat>, free: set<nat>, on: map<nat, nat>, pages: set<nat>, h: nat, maxBlocks: nat)
    requires Tiles(sz, pages) && Placed(sz, free, on, h) && h in sz && h + sz[h] in sz && h !in on
    requires h + sz[h] !in free && h + sz[h] !in on && on.Keys <= sz.Keys
    requires Short(sz, maxBlocks) && sz[h] + sz[h + sz[h]] <= maxBlocks
    ensures Placed(Merged(sz, h), free, on, h) && Agree(sz, Merged(sz, h), on)
    ensures Short(Merged(sz, h), maxBlocks) && Tiles(Merged(sz, h), pages)
  {
    TilesPositive(sz, pages, h);
    TilesMerge(sz, pages, h);
  }

  /** Merged blocks of the heap are not longer than the heap. */
  lemma MergedFits(sz: map<nat, nat>, pages: set<nat>, h: nat)
    requires Tiles(sz, pages) && h in sz && h + sz[h] in sz
    ensures sz[h] + sz[h + sz[h]] <= |pages|
  {
    TilesMerge(sz, pages, h);
    BlockFits(Merged(sz, h), pages, h);
  }

  /** Freeing h, once its free successor is absorbed, puts no free block after it. */
  lemma MergedNextNoAdjacent(sz: map<nat, nat>, free: set<nat>, pages: set<nat>, h: nat)
    requires Tiles(sz, pages) && free <= sz.Keys && h in sz && h !in free && NoAdjacent(sz, free)
    requires h + sz[h] in free && h + sz[h] in sz
    ensures NoAdjacent(Merged(sz, h), free - {h + sz[h]})
    ensures h + Merged(sz, h)[h] !in free
  {
    TilesPositive(sz, pages, h);
  }

  lemma FreedNoAdjacent(sz: map<nat, nat>, free: set<nat>, pages: set<nat>, h: nat)
    requires Tiles(sz, pages) && free <= sz.Keys && h in sz && h !in free && NoAdjacent(sz, free)
    requires h + sz[h] !in free
    requires forall p :: p in free && p in sz && p < h ==> p + sz[p] != h
    ensures NoAdjacent(sz, free + {h})
  {
  }

  lemma MergedPrevNoAdjacent(sz: map<nat, nat>, free: set<nat>, pages: set<nat>, p: nat)
    requires Tiles(sz, pages) && free <= sz.Keys && NoAdjacent(sz, free) && p in free && p in sz
    requires p + sz[p] in sz && p + sz[p] !in free && p + sz[p] + sz[p + sz[p]] !in free
    ensures NoAdjacent(Merged(sz, p), free + {p})
  {
    TilesPositive(sz, pages, p);
  }

  /** The blocks in use, with their lengths, other than h. */
  ghost predicate SameInUse(sz: map<nat, nat>, free: set<nat>, sz': map<nat, nat>, free': set<nat>, h: nat) {
    && (forall a :: a != h && a in sz && a !in free ==> a in sz' && a !in free' && sz'[a] == sz[a])
    && (forall a :: a != h && a in sz' && a !in free' ==> a in sz && a !in free)
  }

  /** The free blocks below h, with their lengths. */
  ghost predicate SameBelow(sz: map<nat, nat>, free: set<nat>, sz': map<nat, nat>, free': set<nat>, h: nat) {
    forall a :: a < h ==>
      (a in free && a in sz <==> a in free' && a in sz') && (a in free && a in sz && a in sz' ==> sz'[a] == sz[a])
  }

  lemma MergedSameInUse(sz: map<nat, nat>, free: set<nat>, sz1: map<nat, nat>, free1: set<nat>, p: nat, h: nat)
    requires SameInUse(sz, free, sz1, free1, h) && p in sz1 && p in free1 && p + sz1[p] == h && h in sz1 && p != h
    ensures SameInUse(sz, free, Merged(sz1, p), free1, h) && h !in Merged(sz1, p)
  {
  }

  lemma FreedSameInUse(sz: map<nat, nat>, free: set<nat>, sz1: map<nat, nat>, free1: set<nat>, h: nat)
    requires SameInUse(sz, free, sz1, free1, h)
    ensures SameInUse(sz, free, sz1, free1 + {h}, h)
  {
  }

  /** The lengths and free blocks after h tried to absorb its successor. */
  lemma CoalescedSame(sz: map<nat, nat>, free: set<nat>, h: nat)
    requires h in sz && h !in free
    ensures SameInUse(sz, free, sz, free, h) && SameBelow(sz, free, sz, free, h)
    ensures h + sz[h] in sz && h + sz[h] in free && sz[h] > 0 ==>
              && SameInUse(sz, free, Merged(sz, h), free - {h + sz[h]}, h)
              && SameBelow(sz, free, Merged(sz, h), free - {h + sz[h]}, h)
  {
  }

  lemma SameInUseSelf(sz: map<nat, nat>, free: set<nat>)
    ensures SameInUse(sz, free, sz, free, 0)
  {
  }

  ghost function Section(p: nat, n: nat): set<nat> {
    if n == 0 then {} else Section(p, n - 1) + {p + n - 1}
  }

  lemma {:induction false} SectionMembers(p: nat, n: nat)
    ensures forall q :: q in Section(p, n) <==> p <= q < p + n
  {
    if n > 0 {
      SectionMembers(p, n - 1);
    }
  }

  lemma SectionAdded(pages: set<nat>, p: nat, n: nat) returns (pages': set<nat>)
    requires forall q :: p <= q < p + n ==> q !in pages
    ensures Extends(pages, pages', p, n)
  {
    SectionMembers(p, n);
    pages' := pages + Section(p, n);
  }

  lemma PlacedNoZero(sz: map<nat, nat>, free: set<nat>, on: map<nat, nat>)
    requires Placed(sz, free, on, 0)
    ensures 0 !in sz
  {
  }

  /** A new header for a section of n pages, counted as in use until it is freed. */
  lemma PlacedFresh(sz: map<nat, nat>, free: set<nat>, on: map<nat, nat>, p: nat, n: nat, maxBlocks: nat)
    requires Placed(sz, free, on, 0) && p !in sz && p != 0 && Short(sz, maxBlocks) && n <= maxBlocks
    ensures Placed(sz[p := n], free, on, 0) && Short(sz[p := n], maxBlocks) && p !in free
  {
  }

  lemma FreshAgree(sz: map<nat, nat>, on: map<nat, nat>, p: nat, n: nat)
    requires p !in sz && on.Keys <= sz.Keys
    ensures Agree(sz, sz[p := n], on)
  {
  }

  lemma FreshNoAdjacent(sz: map<nat, nat>, free: set<nat>, p: nat, n: nat)
    requires p !in sz && p !in free
    ensures NoAdjacent(sz, free) ==> NoAdjacent(sz[p := n], free)
  {
  }

  lemma FreshSameInUse(sz: map<nat, nat>, free: set<nat>, sz': map<nat, nat>, free': set<nat>, p: nat, n: nat)
    requires p !in sz && p !in free && SameInUse(sz[p := n], free, sz', free', p) && (p in sz' ==> p in free')
    requires 0 !in sz'
    ensures SameInUse(sz, free, sz', free', 0)
  {
  }

  // ---------- conservation

  ghost predicate FreePage(sz: map<nat, nat>, free: set<nat>, p: nat) {
    exists a :: a in free && Owns(sz, a, p)
  }

  ghost predicate UsedPage(sz: map<nat, nat>, free: set<nat>, p: nat) {
    exists a :: a !in free && Owns(sz, a, p)
  }

  ghost function FreePages(sz: map<nat, nat>, free: set<nat>, pages: set<nat>): set<nat> {
    set p | p in pages && FreePage(sz, free, p)
  }

  ghost function UsedPages(sz: map<nat, nat>, free: set<nat>, pages: set<nat>): set<nat> {
    set p | p in pages && UsedPage(sz, free, p)
  }

  lemma FreeNotUsed(sz: map<nat, nat>, free: set<nat>, pages: set<nat>, p: nat)
    requires Tiles(sz, pages) && FreePage(sz, free, p)
    ensures !UsedPage(sz, free, p)
  {
    var a :| a in free && Owns(sz, a, p);
    forall b | Owns(sz, b, p)
      ensures b == a
    {
      OneOwner(sz, pages, a, b, p);
    }
  }

  /** Every page of the heap is either in a free block or in a block in use. */
  lemma PagesSplit(sz: map<nat, nat>, free: set<nat>, pages: set<nat>)
    requires Tiles(sz, pages)
    ensures |UsedPages(sz, free, pages)| + |FreePages(sz, free, pages)| == |pages|
  {
    var u, f := UsedPages(sz, free, pages), FreePages(sz, free, pages);
    forall p: nat | p in pages
      ensures p in u + f
    {
      var a :| Owns(sz, a, p);
    }
    forall p: nat | p in f
      ensures p !in u
    {
      FreeNotUsed(sz, free, pages, p);
    }
    assert u !! f;
    assert pages == u + f;
  }

  /** The pages of the blocks of a list. */
  ghost function ListPages(sz: map<nat, nat>, L: seq<nat>): set<nat> {
    if L == [] then {}
    else Section(L[0], if L[0] in sz then sz[L[0]] else 0) + ListPages(sz, L[1..])
  }

  lemma {:induction false} ListPagesMembers(sz: map<nat, nat>, L: seq<nat>)
    requires forall a :: a in L ==> a in sz
    ensures forall p :: p in ListPages(sz, L) <==> exists a :: a in L && Owns(sz, a, p)
  {
    if L != [] {
      SectionMembers(L[0], sz[L[0]]);
      ListPagesMembers(sz, L[1..]);
      forall p
        ensures p in ListPages(sz, L) <==> exists a :: a in L && Owns(sz, a, p)
      {
        if p in Section(L[0], sz[L[0]]) {
          assert L[0] in L && Owns(sz, L[0], p);
        }
        if p in ListPages(sz, L[1..]) {
          var a :| a in L[1..] && Owns(sz, a, p);
          assert a in L;
        }
        if a :| a in L && Owns(sz, a, p) {
          assert a == L[0] || a in L[1..];
        }
      }
    }
  }

  lemma {:induction false} SectionSize(p: nat, n: nat)
    ensures |Section(p, n)| == n
  {
    if n > 0 {
      SectionSize(p, n - 1);
      SectionMembers(p, n - 1);
    }
  }

  lemma {:induction false} ListPagesSize(sz: map<nat, nat>, pages: set<nat>, L: seq<nat>)
    requires Tiles(sz, pages) && NoDuplicates(L) && forall a :: a in L ==> a in sz
    ensures |ListPages(sz, L)| == Sum(sz, L)
  {
    if L != [] {
      ListPagesSize(sz, pages, L[1..]);
      SectionSize(L[0], sz[L[0]]);
      SectionMembers(L[0], sz[L[0]]);
      ListPagesMembers(sz, L[1..]);
      forall p | p in Section(L[0], sz[L[0]])
        ensures p !in ListPages(sz, L[1..])
      {
        forall a | a in L[1..] ensures !Owns(sz, a, p) {
          if Owns(sz, a, p) { OneOwner(sz, pages, a, L[0], p); }
        }
      }
      assert Section(L[0], sz[L[0]]) !! ListPages(sz, L[1..]);
    }
  }

  /** The pages of the blocks of the first n lists. */
  ghost function AllPages(sz: map<nat, nat>, lists: seq<seq<nat>>, n: nat): set<nat>
    requires n <= |lists|
  {
    if n == 0 then {} else AllPages(sz, lists, n - 1) + ListPages(sz, lists[n - 1])
  }

  /** The pages of the blocks of list i. */
  lemma OneListPages(sz: map<nat, nat>, f: FreeLists.Links, i: nat)
    requires LinksOk(sz, f) && i < |f.lists|
    ensures forall p :: p in ListPages(sz, f.lists[i]) <==> exists a :: a in f.on && f.on[a] == i && Owns(sz, a, p)
  {
    hide Linked, Owns, ListPages, Sum;
    var L := f.lists[i];
    assert forall a :: a in L <==> a in f.on && f.on[a] == i;
    ListPagesMembers(sz, L);
  }

  lemma {:induction false} AllPagesMembers(sz: map<nat, nat>, f: FreeLists.Links, n: nat)
    requires LinksOk(sz, f) && n <= |f.lists|
    ensures forall p :: p in AllPages(sz, f.lists, n) <==> exists a :: a in f.on && f.on[a] < n && Owns(sz, a, p)
  {
    hide LinksOk, Owns, ListPages;
    if n > 0 {
      AllPagesMembers(sz, f, n - 1);
      OneListPages(sz, f, n - 1);
    }
  }

  lemma {:induction false} AllPagesSize(sz: map<nat, nat>, pages: set<nat>, f: FreeLists.Links, n: nat)
    requires LinksOk(sz, f) && Tiles(sz, pages) && n <= |f.lists| == |f.bytes|
    ensures |AllPages(sz, f.lists, n)| == Total(f.bytes[..n])
  {
    if n > 0 {
      AllPagesSize(sz, pages, f, n - 1);
      AllPagesStep(sz, pages, f, n);
    }
  }

  lemma AllPagesStep(sz: map<nat, nat>, pages: set<nat>, f: FreeLists.Links, n: nat)
    requires LinksOk(sz, f) && Tiles(sz, pages) && 0 < n <= |f.lists| == |f.bytes|
    requires |AllPages(sz, f.lists, n - 1)| == Total(f.bytes[..n - 1])
    ensures |AllPages(sz, f.lists, n)| == Total(f.bytes[..n])
  {
    hide LinksOk, Tiles, Sum, ListPages, Total, NoDuplicates;
    ListShape(sz, f, n - 1);
    ListPagesSize(sz, pages, f.lists[n - 1]);
    assert f.bytes[..n] == f.bytes[..n - 1] + [f.bytes[n - 1]];
    TotalSnoc(f.bytes[..n - 1], f.bytes[n - 1]);
    ListsApart(sz, pages, f, n);
  }

  lemma ListShape(sz: map<nat, nat>, f: FreeLists.Links, i: nat)
    requires LinksOk(sz, f) && i < |f.lists|
    ensures NoDuplicates(f.lists[i]) && (forall a :: a in f.lists[i] ==> a in sz)
    ensures |f.bytes| == |f.lists| && f.bytes[i] == Sum(sz, f.lists[i])
  {
    assert Linked(f.next, f.prev, f.head[i], f.lists[i]);
    assert forall a :: a in f.lists[i] ==> a in f.on;
  }

  lemma ListsApart(sz: map<nat, nat>, pages: set<nat>, f: FreeLists.Links, n: nat)
    requires LinksOk(sz, f) && Tiles(sz, pages) && 0 < n <= |f.lists|
    ensures AllPages(sz, f.lists, n - 1) !! ListPages(sz, f.lists[n - 1])
  {
    hide AllPages, ListPages, Linked, Tiles, Sum;
    var L := f.lists[n - 1];
    assert forall a :: a in L ==> a in f.on && f.on[a] == n - 1;
    AllPagesMembers(sz, f, n - 1);
    ListPagesMembers(sz, L);
    forall p | p in AllPages(sz, f.lists, n - 1) && p in ListPages(sz, L)
      ensures false
    {
      var a :| a in f.on && f.on[a] < n - 1 && Owns(sz, a, p);
      var b :| b in L && Owns(sz, b, p);
      OneOwner(sz, pages, a, b, p);
    }
  }

  lemma OneOwner(sz: map<nat, nat>, pages: set<nat>, a: nat, b: nat, p: nat)
    requires Tiles(sz, pages) && Owns(sz, a, p) && Owns(sz, b, p)
    ensures a == b
  {
  }

  /** The byte counts of all lists add up to the pages of all free blocks. */
  lemma FreePagesCounted(sz: map<nat, nat>, free: set<nat>, pages: set<nat>, f: FreeLists.Links)
    requires LinksOk(sz, f) && Tiles(sz, pages) && Placed(sz, free, f.on, 0)
    ensures |FreePages(sz, free, pages)| == Total(f.bytes)
  {
    hide LinksOk, Total, AllPages;
    LinksShape(sz, f);
    AllPagesSize(sz, pages, f, |f.lists|);
    AllPagesMembers(sz, f, |f.lists|);
    OnListed(sz, f);
    assert f.bytes[..|f.lists|] == f.bytes;
    forall p
      ensures p in FreePages(sz, free, pages) <==> p in AllPages(sz, f.lists, |f.lists|)
    {
      if p in FreePages(sz, free, pages) {
        var a :| a in free && Owns(sz, a, p);
        assert a in f.on;
      }
      if p in AllPages(sz, f.lists, |f.lists|) {
        var a :| a in f.on && f.on[a] < |f.lists| && Owns(sz, a, p);
        assert a in free;
      }
    }
    assert FreePages(sz, free, pages) == AllPages(sz, f.lists, |f.lists|);
  }

  lemma OnListed(sz: map<nat, nat>, f: FreeLists.Links)
    requires LinksOk(sz, f)
    ensures forall a :: a in f.on ==> f.on[a] < |f.lists|
  {
  }

  // ---------- unmapped blocks

  /** h could absorb its successor. */
  ghost predicate Mergeable(sz: map<nat, nat>, free: set<nat>, maxBlocks: nat, h: nat)
    requires h in sz
  {
    h + sz[h] in free && h + sz[h] in sz && sz[h] + sz[h + sz[h]] <= maxBlocks
  }

  ghost predicate NoneMergeable(sz: map<nat, nat>, free: set<nat>, maxBlocks: nat, limit: nat) {
    forall a :: a in free && a in sz && ListFor(sz[a]) < limit ==> !Mergeable(sz, free, maxBlocks, a)
  }

  /** A block that can absorb its successor after a merge elsewhere could before. */
  lemma MergeableBefore(sz: map<nat, nat>, free: set<nat>, pages: set<nat>, maxBlocks: nat, h: nat, a: nat)
    requires Tiles(sz, pages) && h in sz && h + sz[h] in sz && a in sz && a != h && a != h + sz[h]
    requires Mergeable(Merged(sz, h), free - {h + sz[h]}, maxBlocks, a)
    ensures Mergeable(sz, free, maxBlocks, a)
  {
    TilesPositive(sz, pages, h);
  }

  /** A merge makes no other pair of free blocks mergeable. */
  lemma MergedNoneMergeable(sz: map<nat, nat>, free: set<nat>, pages: set<nat>, maxBlocks: nat, h: nat, limit: nat)
    requires Tiles(sz, pages) && free <= sz.Keys && NoneMergeable(sz, free, maxBlocks, limit)
    requires h in sz && h in free && Mergeable(sz, free, maxBlocks, h) && limit <= ListFor(sz[h])
    ensures NoneMergeable(Merged(sz, h), free - {h + sz[h]}, maxBlocks, limit)
    ensures limit <= ListFor(sz[h] + sz[h + sz[h]])
  {
    hide Tiles, ListFor;
    var next := h + sz[h];
    ListForMonotone(sz[h], sz[h] + sz[next]);
    forall a | a in free - {next} && a in Merged(sz, h) && ListFor(Merged(sz, h)[a]) < limit
      ensures !Mergeable(Merged(sz, h), free - {next}, maxBlocks, a)
    {
      if Mergeable(Merged(sz, h), free - {next}, maxBlocks, a) {
        MergeableBefore(sz, free, pages, maxBlocks, h, a);
      }
    }
  }

  lemma MergedInUse(sz: map<nat, nat>, free: set<nat>, sz1: map<nat, nat>, free1: set<nat>, h: nat)
    requires SameInUse(sz, free, sz1, free1, 0) && h in sz1 && h in free1 && h + sz1[h] in sz1
    requires h + sz1[h] in free1 && sz1[h] > 0
    ensures SameInUse(sz, free, Merged(sz1, h), free1 - {h + sz1[h]}, 0)
  {
  }

  lemma ListDone(sz: map<nat, nat>, free: set<nat>, f: FreeLists.Links, maxBlocks: nat, i: nat)
    requires LinksOk(sz, f) && Placed(sz, free, f.on, 0) && i < |f.lists| && NoneMergeable(sz, free, maxBlocks, i)
    requires PrefixUnmergeable(sz, free, maxBlocks, f.lists[i], |f.lists[i]|)
    ensures NoneMergeable(sz, free, maxBlocks, i + 1)
  {
    forall a | a in free && a in sz && ListFor(sz[a]) == i
      ensures !Mergeable(sz, free, maxBlocks, a)
    {
      assert f.on[a] == i;
      var k :| 0 <= k < |f.lists[i]| && f.lists[i][k] == a;
    }
  }

  ghost predicate PrefixUnmergeable(sz: map<nat, nat>, free: set<nat>, maxBlocks: nat, L: seq<nat>, k: nat)
    requires k <= |L|
  {
    forall j :: 0 <= j < k && L[j] in sz ==> !Mergeable(sz, free, maxBlocks, L[j])
  }

  /** With every list done, the only adjacent free blocks are too long to merge. */
  lemma AllUnmergeable(sz: map<nat, nat>, free: set<nat>, maxBlocks: nat)
    requires NoneMergeable(sz, free, maxBlocks, N_HBLK_FLS + 1)
    ensures forall a :: a in free && a in sz ==> !Mergeable(sz, free, maxBlocks, a)
  {
  }

  lemma NoneMergeableStart(sz: map<nat, nat>, free: set<nat>, maxBlocks: nat)
    ensures NoneMergeable(sz, free, maxBlocks, 0)
  {
  }

  lemma PrefixStart(sz: map<nat, nat>, free: set<nat>, maxBlocks: nat, L: seq<nat>)
    ensures PrefixUnmergeable(sz, free, maxBlocks, L, 0)
  {
  }

  lemma PrefixNext(sz: map<nat, nat>, free: set<nat>, maxBlocks: nat, L: seq<nat>, k: nat)
    requires k < |L| && L[k] in sz && PrefixUnmergeable(sz, free, maxBlocks, L, k)
    requires !Mergeable(sz, free, maxBlocks, L[k])
    ensures PrefixUnmergeable(sz, free, maxBlocks, L, k + 1)
  {
  }
}
