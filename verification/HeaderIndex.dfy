/**
 The operations on the header index of tool/gec/backend/c/boehm_gc/headers.c, and its users
 get_block_ending_at of allchblk.c and GC_base of misc.c.
 */
module HeaderIndex {
  import opened PageIndex
  import opened Wrappers

  class Index {
    var ix: Levels
    var asc: map<nat, nat>
    var desc: map<nat, nat>
    var first: Option<nat>
    var last: Option<nat>
    ghost var keys: seq<nat>

    ghost predicate Sound()
      reads this
    {
      Shaped(ix) && Listed(keys, ix.Keys, asc, desc, first, last)
    }

    /** The index is sound and that of a set of blocks. */
    ghost predicate Valid()
      reads this
    {
      Sound() && Good(ix)
    }

    constructor ()
      ensures Valid() && ix == map[]
    {
      ix, asc, desc, first, last, keys := map[], map[], map[], None, None, [];
    }

    /** The neighbours in the list that a new key goes between. */
    method Place(hi: nat) returns (pi: Option<nat>, p: Option<nat>, ghost i: nat)
      requires Sound() && hi !in ix
      ensures i <= |keys| && pi == KeyAt(keys, i - 1) && p == KeyAt(keys, i)
      ensures (i > 0 ==> keys[i - 1] < hi) && (i < |keys| ==> hi < keys[i])
    {
      hide Ascending, Descending, Sorted;
      pi, p, i := None, first, 0;
      while p.Some? && p.value < hi
        invariant i <= |keys|
        invariant pi == KeyAt(keys, i - 1) && p == KeyAt(keys, i)
        invariant i > 0 ==> keys[i - 1] < hi
        decreases |keys| - i
      {
        AscendingAt(keys, asc, i);
        pi, p, i := p, Link(asc, p.value), i + 1;
      }
      assert i < |keys| ==> keys[i] in ix;
    }

    /** get_index: makes sure of a bottom index for key hi. */
    method GetIndex(hi: nat, canAllocate: bool) returns (ok: bool)
      requires Sound()
      modifies this
      ensures Sound() && old(ix).Keys <= ix.Keys && forall p: nat :: At(ix, p) == At(old(ix), p)
      ensures ok == (hi in old(ix) || canAllocate) && (!ok || hi in old(ix) ==> ix == old(ix))
      ensures ok ==> ix.Keys == old(ix).Keys + {hi}
    {
      hide Listed, Inserted, Link, At;
      if hi in ix { return true; }
      if !canAllocate { return false; }
      var pi, p, i := Place(hi);
      var asc' := (if pi.Some? then asc[pi.value := hi] else asc) + (if p.Some? then map[hi := p.value] else map[]);
      var desc' := (if p.Some? then desc[p.value := hi] else desc) + (if pi.Some? then map[hi := pi.value] else map[]);
      ListedInserted(keys, ix.Keys, asc, desc, first, last, i, hi, asc', desc');
      var ix' := ix[hi := seq(1024, _ => Nil)];
      NewLevel(ix, hi, ix');
      assert ix'.Keys == ix.Keys + {hi};
      if p.None? { last := Some(hi); }
      if pi.None? { first := Some(hi); }
      keys, asc, desc := Inserted(keys, i, hi), asc', desc';
      ix := ix';
      return true;
    }

    /** SET_HDR. */
    method Set(p: nat, e: Entry)
      requires Sound() && p / 1024 in ix
      modifies this`ix
      ensures Sound() && SetTo(old(ix), ix, p, e) && ix.Keys == old(ix).Keys
    {
      hide Listed, SetTo;
      SetOne(ix, p, e);
      assert ix[p / 1024 := ix[p / 1024][p % 1024 := e]].Keys == ix.Keys;
      ix := ix[p / 1024 := ix[p / 1024][p % 1024 := e]];
    }

    /** GC_install_header, the header as its caller fills it in; there may be no memory for a bottom index
        or for the header. */
    method InstallHeader(h: nat, e: Entry, canIndex: bool, canHeader: bool) returns (ok: bool)
      requires Sound()
      modifies this
      ensures Sound() && ok == ((h / 1024 in old(ix) || canIndex) && canHeader)
      ensures if ok then SetTo(old(ix), ix, h, e) else forall p: nat :: At(ix, p) == At(old(ix), p)
    {
      ok := GetIndex(h / 1024, canIndex);
      if ok {
        ok := canHeader;
        if ok {
          Set(h, e);
        }
      }
    }

    /** GC_install_counts; at most `budget` new bottom indices can be had. */
    method InstallCounts(h: nat, sz: nat, budget: nat) returns (ok: bool)
      requires Sound() && sz > 0
      modifies this
      ensures Sound()
      ensures forall p: nat :: At(ix, p) == if ok && h < p < h + Pages(sz) then Forward(Jump(p - h)) else At(old(ix), p)
      ensures ok <==> Lacking(KeysOf(h, h + Pages(sz)), old(ix).Keys) <= budget
    {
      hide Listed, KeysOf, Lacking;
      ghost var ix0 := ix;
      PagesIs(h, sz);
      ok := InstallIndices(h, sz, budget);
      if !ok { return; }
      forall p: nat | h <= p < h + Pages(sz) ensures p / 1024 in ix { KeyNeeded(h, h + Pages(sz), p); }
      var hbp := h + 1;
      while 4096 * hbp < 4096 * h + sz
        invariant h < hbp <= h + Pages(sz) || (hbp == h + 1 && sz <= 4096)
        invariant Sound() && forall p: nat :: h <= p < h + Pages(sz) ==> p / 1024 in ix
        invariant forall p: nat :: At(ix, p) == if h < p < hbp then Forward(Jump(p - h)) else At(ix0, p)
        decreases 4096 * h + sz - 4096 * hbp
      {
        Set(hbp, Forward(Jump(hbp - h)));
        hbp := hbp + 1;
      }
    }

    /** The bottom indices that the pages of a block need: of every 1024th page from the first on, and of the last. */
    method InstallIndices(h: nat, sz: nat, budget: nat) returns (ok: bool)
      requires Sound() && sz > 0
      modifies this
      ensures Sound() && forall p: nat :: At(ix, p) == At(old(ix), p)
      ensures ok ==> ix.Keys == old(ix).Keys + KeysOf(h, h + Pages(sz))
      ensures ok <==> Lacking(KeysOf(h, h + Pages(sz)), old(ix).Keys) <= budget
    {
      hide Listed, At, KeysOf, KeysFrom, Key, Pages, Shaped, Provided, Lacking;
      PagesIs(h, sz);
      ghost var had, end, n: nat := ix.Keys, h + Pages(sz), 0;
      NoneProvided(Key(h), had, KeysOf(h, end), budget);
      var left: nat, hbp: nat := budget, h;
      while 4096 * hbp < 4096 * h + sz
        invariant hbp == h + 1024 * n && Sound() && (n > 0 ==> hbp < end + 1024)
        invariant forall p: nat :: At(ix, p) == At(old(ix), p)
        invariant Provided(ix.Keys, had, KeysFrom(Key(h), n), KeysOf(h, end), left, budget)
        decreases 4096 * h + sz - 4096 * hbp
      {
        KeyNeeded(h, end, hbp);
        NextKey(h, n);
        ok, left := Provide(Key(hbp), left, had, KeysFrom(Key(h), n), KeysOf(h, end), budget);
        if !ok { return; }
        hbp, n := hbp + 1024, n + 1;
      }
      var last := (4096 * h + sz - 1) / 4096;
      KeyNeeded(h, end, last);
      AllNeeded(h, end, n);
      ok, left := Provide(Key(last), left, had, KeysFrom(Key(h), n), KeysOf(h, end), budget);
      if ok { AllProvided(ix.Keys, had, KeysOf(h, end), left, budget); }
    }

    /** One more bottom index; it costs nothing if there is one. */
    method Provide(key: nat, left: nat, ghost had: set<nat>, ghost done: set<nat>, ghost needed: set<nat>,
                   ghost budget: nat) returns (ok: bool, left': nat)
      requires Sound() && Provided(ix.Keys, had, done, needed, left, budget) && key in needed
      modifies this
      ensures Sound() && forall p: nat :: At(ix, p) == At(old(ix), p)
      ensures ok ==> Provided(ix.Keys, had, done + {key}, needed, left', budget)
      ensures !ok ==> Lacking(needed, had) > budget
    {
      hide Listed, At, Provided, Shaped;
      ProvidedOne(ix.Keys, had, done, needed, left, budget, key);
      var missing := key !in ix;
      ok := GetIndex(key, left > 0);
      left' := if ok && missing then left - 1 else left;
    }

    /** GC_remove_header. */
    method RemoveHeader(h: nat)
      requires Sound() && At(ix, h) != Nil
      modifies this`ix
      ensures Sound() && SetTo(old(ix), ix, h, Nil)
    {
      Set(h, Nil);
    }

    /** GC_remove_counts; a block without counts stays without. */
    method RemoveCounts(h: nat, sz: nat)
      requires Sound() && forall p: nat :: h < p < h + Pages(sz) ==> (At(ix, p) == Nil <==> At(ix, h + 1) == Nil)
      modifies this`ix
      ensures Sound()
      ensures forall p: nat :: At(ix, p) == if h < p < h + Pages(sz) then Nil else At(old(ix), p)
    {
      hide Listed;
      if sz <= 4096 || At(ix, h + 1) == Nil { return; }
      ghost var ix0 := ix;
      var hbp := h + 1;
      while 4096 * hbp < 4096 * h + sz
        invariant h < hbp <= h + Pages(sz)
        invariant Sound() && forall p: nat :: At(ix, p) == if h < p < hbp then Nil else At(ix0, p)
        decreases 4096 * h + sz - 4096 * hbp
      {
        assert At(ix, hbp) != Nil;
        Set(hbp, Nil);
        hbp := hbp + 1;
      }
    }

    /** The bottom index of page h, or else the last one before, with no block's start in between. */
    method AtOrBefore(h: nat) returns (bi: Option<nat>, j: nat, ghost i: int)
      requires Valid()
      ensures -1 <= i < |keys| && bi == KeyAt(keys, i) && j < 1024
      ensures bi.Some? ==> Page(bi.value, j) <= h
      ensures NoHeaders(ix, if bi.Some? then Page(bi.value, j) + 1 else 0, h)
    {
      hide Good, Ascending, Descending, Sorted, At;
      if h / 1024 in ix {
        i :| 0 <= i < |keys| && keys[i] == h / 1024;
        return Some(h / 1024), h % 1024, i;
      }
      bi, i := last, |keys| - 1;
      while bi.Some? && bi.value > h / 1024
        invariant -1 <= i < |keys| && bi == KeyAt(keys, i)
        invariant i + 1 < |keys| ==> keys[i + 1] > h / 1024
        decreases i
      {
        DescendingAt(keys, desc, i);
        bi, i := Link(desc, bi.value), i - 1;
      }
      j := 1023;
      assert bi.Some? ==> bi.value in ix;
      forall q: nat | (if bi.Some? then Page(bi.value, j) + 1 else 0) <= q <= h
        ensures !At(ix, q).Header?
      {
        Gap(keys, ix, i, q);
      }
    }

    /** The last block's start in bottom index k, from entry j down. */
    method SearchDown(k: nat, j0: nat, ghost h: nat) returns (r: Option<nat>, ghost j: int)
      requires Valid() && k in ix && j0 < 1024 && Page(k, j0) <= h && NoHeaders(ix, Page(k, j0) + 1, h)
      ensures if r.Some? then r.value <= h && At(ix, r.value).Header? && NoHeaders(ix, r.value + 1, h)
              else j < 0 && NoHeaders(ix, Page(k, j) + 1, h)
    {
      hide Good, Listed, At, NoHeaders;
      var at: int := j0;
      while at >= 0
        invariant at < 1024 && Page(k, at) <= h && NoHeaders(ix, Page(k, at) + 1, h)
      {
        AtPage(ix, k, at);
        match ix[k][at]
        case Nil =>
          NoHeadersMore(ix, Page(k, at), Page(k, at), h);
          at := at - 1;
        case Forward(n) =>
          var b := Back(ix, Page(k, at));
          NoHeadersMore(ix, Page(k, at) - n + 1, Page(k, at), h);
          at := at - n;
        case Header(_, _) => return Some(Page(k, at)), at;
      }
      return None, at;
    }

    /** GC_prev_block: the last block starting at or before page h. */
    method PrevBlock(h: nat) returns (r: Option<nat>)
      requires Valid()
      ensures if r.Some? then r.value <= h && At(ix, r.value).Header? && NoHeaders(ix, r.value + 1, h)
              else NoHeaders(ix, 0, h)
    {
      hide Good, Ascending, Descending, Sorted, NoHeaders, At;
      var bi, j;
      ghost var i, jEnd;
      bi, j, i := AtOrBefore(h);
      while bi.Some?
        invariant -1 <= i < |keys| && bi == KeyAt(keys, i) && j < 1024
        invariant bi.Some? ==> Page(bi.value, j) <= h
        invariant NoHeaders(ix, if bi.Some? then Page(bi.value, j) + 1 else 0, h)
        decreases i
      {
        assert bi.value in keys;
        r, jEnd := SearchDown(bi.value, j, h);
        if r.Some? { return; }
        DescendingAt(keys, desc, i);
        StepDown(keys, ix, i, jEnd, h);
        if i > 0 { SortedAt(keys, i - 1, i); }
        j, bi, i := 1023, Link(desc, bi.value), i - 1;
      }
      return None;
    }

    /** The bottom index of page h, or else the first one after, with no block's start in between. */
    method AtOrAfter(h: nat, ghost wanted: Entry -> bool) returns (bi: Option<nat>, j: nat, ghost i: nat)
      requires Valid() && !wanted(Nil)
      ensures i <= |keys| && bi == KeyAt(keys, i) && j < 1024
      ensures if bi.Some? then h <= Page(bi.value, j) && Missing(ix, h, Page(bi.value, j) - 1, wanted)
              else forall q: nat :: h <= q ==> !wanted(At(ix, q))
    {
      hide Good, Ascending, Descending, Sorted, At;
      if h / 1024 in ix {
        i :| i < |keys| && keys[i] == h / 1024;
        return Some(h / 1024), h % 1024, i;
      }
      bi, i := first, 0;
      while bi.Some? && bi.value < h / 1024
        invariant i <= |keys| && bi == KeyAt(keys, i)
        invariant i > 0 ==> keys[i - 1] < h / 1024
        decreases |keys| - i
      {
        AscendingAt(keys, asc, i);
        bi, i := Link(asc, bi.value), i + 1;
      }
      j := 0;
      assert bi.Some? ==> bi.value in ix;
      forall q: nat | h <= q && (bi.Some? ==> q < 1024 * bi.value)
        ensures !wanted(At(ix, q))
      {
        Gap(keys, ix, i - 1, q);
      }
    }

    /** The first wanted block's start in bottom index k, from entry j up. */
    method SearchUp(k: nat, j0: nat, h: nat, allowFree: bool) returns (r: Option<nat>)
      requires Valid() && k in ix && h <= Page(k, j0) && Missing(ix, h, Page(k, j0) - 1, e => Wanted(e, allowFree))
      ensures if r.Some?
              then r.value >= h && Wanted(At(ix, r.value), allowFree)
                   && Missing(ix, h, r.value - 1, e => Wanted(e, allowFree))
              else Missing(ix, h, 1024 * k + 1023, e => Wanted(e, allowFree))
    {
      hide Good, Listed, At, Missing;
      var j := j0;
      while j < 1024
        invariant h <= Page(k, j) && Missing(ix, h, Page(k, j) - 1, e => Wanted(e, allowFree))
        decreases 1024 - j
      {
        AtPage(ix, k, j);
        if !ix[k][j].Header? {
          MissingMore(ix, h, Page(k, j), e => Wanted(e, allowFree));
          j := j + 1;
        } else {
          if Wanted(ix[k][j], allowFree) { return Some(Page(k, j)); }
          FreeSkipped(ix, Page(k, j), h, allowFree);
          j := j + ix[k][j].sz / 4096;
        }
      }
      MissingLess(ix, h, Page(k, j) - 1, 1024 * k + 1023, e => Wanted(e, allowFree));
      return None;
    }

    /** GC_next_block: the first block from page h on, or the first allocated one. */
    method NextBlock(h: nat, allowFree: bool) returns (r: Option<nat>)
      requires Valid()
      ensures if r.Some?
              then r.value >= h && Wanted(At(ix, r.value), allowFree)
                   && Missing(ix, h, r.value - 1, e => Wanted(e, allowFree))
              else forall q: nat :: h <= q ==> !Wanted(At(ix, q), allowFree)
    {
      hide Good, Ascending, Descending, Sorted, Missing, At;
      var bi, j;
      ghost var i;
      bi, j, i := AtOrAfter(h, e => Wanted(e, allowFree));
      while bi.Some?
        invariant i <= |keys| && bi == KeyAt(keys, i) && j < 1024
        invariant if bi.Some?
                  then h <= Page(bi.value, j) && Missing(ix, h, Page(bi.value, j) - 1, e => Wanted(e, allowFree))
                  else forall q: nat :: h <= q ==> !Wanted(At(ix, q), allowFree)
        decreases |keys| - i
      {
        assert bi.value in keys;
        r := SearchUp(bi.value, j, h, allowFree);
        if r.Some? { return; }
        AscendingAt(keys, asc, i);
        StepUp(keys, ix, i, h, e => Wanted(e, allowFree));
        if i + 1 < |keys| { SortedAt(keys, i, i + 1); }
        j, bi, i := 0, Link(asc, bi.value), i + 1;
      }
      return None;
    }

    /** The start of the block that a page with an entry belongs to. */
    method Forwarded(p: nat) returns (b: nat)
      requires Valid() && At(ix, p) != Nil
      ensures At(ix, b).Header? && (p == b || Inner(ix, b, p)) && (At(ix, p).Header? ==> b == p)
    {
      hide Listed;
      b := p;
      if At(ix, p).Forward? {
        ghost var start := Back(ix, p);
        while At(ix, b).Forward?
          invariant start <= b <= p && (b == start || Inner(ix, start, b))
          decreases b
        {
          ghost var s := Back(ix, b);
          OneBlock(ix, s, start, b);
          b := b - At(ix, b).n;
        }
      }
    }

    /** get_block_ending_at: the block ending just before page h, where a block may start. */
    method BlockEndingAt(h: nat) returns (r: Option<nat>)
      requires Valid() && h > 0 && forall b: nat :: !Inner(ix, b, h)
      ensures if r.Some? then r.value < h && At(ix, r.value).Header? && r.value + Pages(At(ix, r.value).sz) == h
              else forall b: nat :: b < h && At(ix, b).Header? ==> b + Pages(At(ix, b).sz) != h
    {
      hide Listed;
      if At(ix, h - 1) != Nil {
        var p := Forwarded(h - 1);
        assert !Inner(ix, p, h);
        return Some(p);
      }
      r := PrevBlock(h - 1);
      if r.Some? {
        var p := r.value;
        if 4096 * p + At(ix, p).sz == 4096 * h { return; }
        forall b: nat | b < h && At(ix, b).Header? ensures b + Pages(At(ix, b).sz) != h {
          if b < p { BlocksApart(ix, b, p); }
          if b + Pages(At(ix, b).sz) == h { NilEnds(ix, p, h); }
        }
        return None;
      }
    }

    /** GC_base: the start of the object that the address is in. */
    method Base(p: nat) returns (r: Option<nat>)
      requires Valid()
      ensures if r.Some? then exists b: nat, sz: nat :: ObjectAt(ix, b, r.value, sz) && r.value <= p < r.value + sz
              else OutsideAll(ix, p)
    {
      hide Listed, ObjectAt, OutsideAll, Offset, Boundary;
      var h := p / 4096;
      if At(ix, h) == Nil {
        NilOutside(ix, p);
        return None;
      }
      var b := Forwarded(h);
      var sz := At(ix, b).sz;
      var offset := Offset(p, b);
      var o := Boundary(b, offset, sz);
      var limit := o + sz;
      if At(ix, b).free || (limit > 4096 * (b + 1) && sz <= 4096) || p >= limit {
        BaseNone(ix, p, b, offset, o);
        return None;
      }
      BaseFound(ix, p, b, offset, o);
      return Some(o);
    }

    /** GC_apply_to_all_blocks, with the pages it calls its argument on in order. */
    method ApplyToAll() returns (visited: seq<nat>)
      requires Valid()
      ensures forall p: nat :: p in visited <==> Live(ix, p)
      ensures forall m: nat, n: nat :: m < n < |visited| ==> visited[m] != visited[n]
    {
      hide Good, Ascending, Descending, Sorted, Visited, Live;
      visited := [];
      var bi := first;
      ghost var i := 0;
      VisitedNone(ix);
      while bi.Some?
        invariant i <= |keys| && bi == KeyAt(keys, i)
        invariant Visited(ix, keys[..i], 0, 1024, visited)
        decreases |keys| - i
      {
        var k := bi.value;
        assert k in keys;
        NotEarlier(keys, i);
        VisitedBegin(ix, keys[..i], k, visited);
        visited := VisitLevel(k, keys[..i], visited);
        AscendingAt(keys, asc, i);
        assert keys[..i + 1] == keys[..i] + [k];
        VisitedLevel(ix, keys[..i], k, visited);
        bi, i := Link(asc, k), i + 1;
      }
      assert keys[..i] == keys;
      VisitedAll(ix, keys, visited);
    }

    /** One bottom index, from its last entry down. */
    method VisitLevel(k: nat, ghost done: seq<nat>, before: seq<nat>) returns (visited: seq<nat>)
      requires Valid() && k in ix && k !in done && Visited(ix, done, k, 1024, before)
      ensures Visited(ix, done, k, 0, visited)
    {
      hide Good, Listed;
      visited := before;
      var j := 1023;
      while j >= 0
        invariant j < 1024 && Visited(ix, done, k, if j < 0 then 0 else j + 1, visited)
      {
        AtPage(ix, k, j);
        match ix[k][j]
        case Header(_, free) =>
          VisitedOne(ix, done, k, j, visited);
          if !free { visited := visited + [Page(k, j)]; }
          j := j - 1;
        case Nil =>
          VisitedSkip(ix, done, k, j, 1, visited);
          j := j - 1;
        case Forward(n) =>
          var b := Back(ix, Page(k, j));
          VisitedSkip(ix, done, k, j, n, visited);
          j := j - n;
      }
    }

    // ---------- what the allocator does with it

    /** A new free block (GC_add_to_heap, through GC_install_header). */
    method AddBlock(h: nat, sz: nat, canIndex: bool, canHeader: bool) returns (ok: bool)
      requires Valid() && SizeOk(sz, true) && Unused(ix, h, Pages(sz))
      modifies this
      ensures Valid() && (canIndex && canHeader ==> ok)
      ensures if ok then SetTo(old(ix), ix, h, Header(sz, true)) else forall p: nat :: At(ix, p) == At(old(ix), p)
    {
      hide Listed, Good;
      ghost var ix0 := ix;
      ok := InstallHeader(h, Header(sz, true), canIndex, canHeader);
      if ok { AddedGood(ix0, ix, h, sz); } else { GoodSame(ix0, ix); }
    }

    /** A free block becomes two, the first n pages and the rest (GC_get_first_part, GC_split_block). */
    method SplitFree(h: nat, n: nat, canIndex: bool, canHeader: bool) returns (ok: bool)
      requires Valid() && At(ix, h).Header? && At(ix, h).free && 0 < n < Pages(At(ix, h).sz)
      modifies this
      ensures Valid() && (canIndex && canHeader ==> ok) && (!ok ==> forall p: nat :: At(ix, p) == At(old(ix), p))
      ensures ok ==> forall p: nat :: At(ix, p) == if p == h then Header(4096 * n, true)
                                                   else if p == h + n then Header(At(old(ix), h).sz - 4096 * n, true)
                                                   else At(old(ix), p)
    {
      hide Listed, Good;
      ghost var ix0 := ix;
      var sz := At(ix, h).sz;
      FreeSize(ix, h);
      SizeParts(sz, n);
      ok := InstallHeader(h + n, Header(sz - 4096 * n, true), canIndex, canHeader);
      if !ok {
        GoodSame(ix0, ix);
        return;
      }
      ghost var ix1 := ix;
      assert At(ix, h) != Nil;
      Set(h, Header(4096 * n, true));
      SplitGood(ix0, ix1, ix, h, n);
    }

    /** Two adjacent free blocks become one (GC_freehblk). */
    method MergeFree(h: nat)
      requires Valid() && At(ix, h).Header? && At(ix, h).free
      requires var n := h + Pages(At(ix, h).sz); At(ix, n).Header? && At(ix, n).free
      modifies this`ix
      ensures Valid()
      ensures var n := h + Pages(At(old(ix), h).sz);
              forall p: nat :: At(ix, p) == if p == h then Header(At(old(ix), h).sz + At(old(ix), n).sz, true)
                                            else if p == n then Nil else At(old(ix), p)
    {
      hide Listed, Good;
      ghost var ix0 := ix;
      var n, sz := h + Pages(At(ix, h).sz), At(ix, h).sz;
      var sz' := At(ix, n).sz;
      FreeSize(ix, h);
      RemoveHeader(n);
      ghost var ix1 := ix;
      assert At(ix, h) != Nil;
      Set(h, Header(sz + sz', true));
      MergedGood(ix0, ix1, ix, h, n);
    }

    /** A free block is handed out, for objects of sz bytes (GC_allochblk_nth, through GC_install_counts
        and setup_header). */
    method Allocate(h: nat, sz: nat, budget: nat) returns (ok: bool)
      requires Valid() && At(ix, h).Header? && At(ix, h).free && Pages(At(ix, h).sz) == Pages(sz) && SizeOk(sz, false)
      modifies this
      ensures Valid() && (ok <==> Lacking(KeysOf(h, h + Pages(sz)), old(ix).Keys) <= budget)
      ensures if ok then Counted(old(ix), ix, h, Header(sz, false), Pages(sz))
              else forall p: nat :: At(ix, p) == At(old(ix), p)
    {
      hide Listed, Good;
      ghost var ix0 := ix;
      SizeWhole(sz, false);
      ok := InstallCounts(h, 4096 * Pages(sz), budget);
      if !ok {
        GoodSame(ix0, ix);
        return;
      }
      assert At(ix, h) == At(ix0, h);
      Set(h, Header(sz, false));
      AllocatedGood(ix0, ix, h, sz);
    }

    /** A block is freed (GC_freehblk, through GC_remove_counts). */
    method Release(h: nat)
      requires Valid() && Live(ix, h)
      modifies this`ix
      ensures Valid()
      ensures Uncounted(old(ix), ix, h, Header(4096 * Pages(At(old(ix), h).sz), true), Pages(At(old(ix), h).sz))
    {
      hide Listed;
      ghost var ix0 := ix;
      var sz := At(ix, h).sz;
      SizeWhole(sz, false);
      forall p: nat | h < p < h + Pages(sz) ensures At(ix, p) != Nil { assert Inner(ix, h, p); }
      RemoveCounts(h, 4096 * Pages(sz));
      assert At(ix, h) != Nil;
      Set(h, Header(4096 * Pages(sz), true));
      FreedGood(ix0, ix, h);
    }
  }
}
