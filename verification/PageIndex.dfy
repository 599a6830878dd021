/**
 The two-level index from pages to block headers of tool/gec/backend/c/boehm_gc/headers.c, with the
 constants of gc_hdrs.h.  Pages (heap blocks) are numbered; a page's key, page / 1024, selects a
 bottom index and page % 1024 the entry in it.
 */
module PageIndex {
  import opened Sets
  import Arithmetic
  import opened Wrappers

  /** What a bottom index holds for a page: nothing, a number of pages to go back, or a header with the
      object size in bytes of its block, or the block's size if it is free. */
  datatype Entry = Nil | Forward(n: nat) | Header(sz: nat, free: bool)

  /** The bottom indices by key. */
  type Levels = map<nat, seq<Entry>>

  predicate Shaped(ix: Levels) {
    forall k :: k in ix ==> |ix[k]| == 1024
  }

  function At(ix: Levels, p: nat): Entry
    requires Shaped(ix)
  {
    if p / 1024 in ix then ix[p / 1024][p % 1024] else Nil
  }

  function Pages(sz: nat): nat {
    (sz + 4095) / 4096
  }

  lemma PagesIs(h: nat, sz: nat)
    requires sz > 0
    ensures 4096 * (h + Pages(sz) - 1) < 4096 * h + sz <= 4096 * (h + Pages(sz))
    ensures (4096 * h + sz - 1) / 4096 == h + Pages(sz) - 1
  {
  }

  /** The key of the bottom index that has page p. */
  function Key(p: nat): nat {
    p / 1024
  }

  /** The keys of n bottom indices from k on. */
  ghost function KeysFrom(k: nat, n: nat): set<nat> {
    if n == 0 then {} else KeysFrom(k, n - 1) + {k + n - 1}
  }

  lemma {:induction false} KeysMembers(k: nat, n: nat)
    ensures |KeysFrom(k, n)| == n && forall i :: i in KeysFrom(k, n) <==> k <= i < k + n
  {
    if n > 0 { KeysMembers(k, n - 1); }
  }

  /** The keys of the bottom indices that have the pages lo..hi-1. */
  ghost function KeysOf(lo: nat, hi: nat): set<nat>
    requires lo < hi
  {
    KeysFrom(Key(lo), Key(hi - 1) + 1 - Key(lo))
  }

  lemma KeyNeeded(lo: nat, hi: nat, p: nat)
    requires lo <= p < hi
    ensures Key(p) in KeysOf(lo, hi)
  {
    KeysMembers(Key(lo), Key(hi - 1) + 1 - Key(lo));
  }

  /** A block never needs more bottom indices than it has pages. */
  lemma EnoughKeys(lo: nat, hi: nat, had: set<nat>)
    requires lo < hi
    ensures Lacking(KeysOf(lo, hi), had) <= hi - lo
  {
    hide KeysFrom;
    KeysMembers(Key(lo), Key(hi - 1) + 1 - Key(lo));
    SubsetSize(KeysOf(lo, hi) - had, KeysOf(lo, hi));
  }

  lemma NextKey(lo: nat, n: nat)
    ensures KeysFrom(Key(lo), n + 1) == KeysFrom(Key(lo), n) + {Key(lo + 1024 * n)}
  {
    hide KeysFrom;
    KeysMembers(Key(lo), n + 1);
    KeysMembers(Key(lo), n);
  }

  /** Every 1024th page and the last page of a block are enough. */
  lemma AllNeeded(lo: nat, hi: nat, n: nat)
    requires lo < hi && n > 0 && lo + 1024 * (n - 1) < hi <= lo + 1024 * n
    ensures KeysFrom(Key(lo), n) + {Key(hi - 1)} == KeysOf(lo, hi)
  {
    hide KeysFrom;
    KeysMembers(Key(lo), n);
    KeysMembers(Key(lo), Key(hi - 1) + 1 - Key(lo));
  }

  /** How many bottom indices have to be added. */
  ghost function Lacking(needed: set<nat>, had: set<nat>): nat {
    |needed - had|
  }

  /** Of the keys that are needed those of `done` are there, and each that was not before has cost one of the
      budget. */
  ghost predicate Provided(keys: set<nat>, had: set<nat>, done: set<nat>, needed: set<nat>, left: nat, budget: nat) {
    keys == had + done && done <= needed && left + Lacking(done, had) == budget
  }

  lemma NoneProvided(k: nat, had: set<nat>, needed: set<nat>, budget: nat)
    ensures Provided(had, had, KeysFrom(k, 0), needed, budget, budget)
  {
    assert {} - had == {};
  }

  lemma ProvidedOne(keys: set<nat>, had: set<nat>, done: set<nat>, needed: set<nat>, left: nat, budget: nat, key: nat)
    requires Provided(keys, had, done, needed, left, budget) && key in needed
    ensures key in keys ==> Provided(keys, had, done + {key}, needed, left, budget)
    ensures key !in keys && left > 0 ==> Provided(keys + {key}, had, done + {key}, needed, left - 1, budget)
    ensures key !in keys && left == 0 ==> Lacking(needed, had) > budget
  {
    if key in keys {
      assert done + {key} - had == done - had;
    } else {
      assert done + {key} - had == (done - had) + {key};
      SubsetSize(done + {key} - had, needed - had);
    }
  }

  lemma AllProvided(keys: set<nat>, had: set<nat>, needed: set<nat>, left: nat, budget: nat)
    requires Provided(keys, had, needed, needed, left, budget)
    ensures keys == had + needed && Lacking(needed, had) <= budget
  {
  }

  /** Objects are of whole words, free blocks of whole pages. */
  predicate SizeOk(sz: nat, free: bool) {
    sz > 0 && sz % 8 == 0 && (free ==> sz % 4096 == 0)
  }

  function Jump(i: nat): nat {
    if i > 4095 then 4095 else i
  }

  /** p is a later page of the block starting at b. */
  predicate Inner(ix: Levels, b: nat, p: nat)
    requires Shaped(ix)
  {
    At(ix, b).Header? && b < p < b + Pages(At(ix, b).sz)
  }

  predicate Live(ix: Levels, b: nat)
    requires Shaped(ix)
  {
    At(ix, b).Header? && !At(ix, b).free
  }

  /** The index is that of a set of disjoint blocks: forwarding counts on the later pages of the
      allocated ones, nothing on the other pages. */
  ghost predicate Good(ix: Levels) {
    && Shaped(ix)
    && (forall p: nat :: At(ix, p).Header? ==> SizeOk(At(ix, p).sz, At(ix, p).free))
    && (forall b: nat, p: nat :: Inner(ix, b, p) ==> At(ix, p) == if At(ix, b).free then Nil else Forward(Jump(p - b)))
    && (forall p: nat :: At(ix, p).Forward? ==> exists b: nat :: Inner(ix, b, p) && Live(ix, b))
  }

  // ---------- the doubly linked list of bottom indices, ascending by key

  function KeyAt(keys: seq<nat>, i: int): Option<nat> {
    if 0 <= i < |keys| then Some(keys[i]) else None
  }

  predicate Sorted(keys: seq<nat>) {
    forall i: nat, j: nat :: i < j < |keys| ==> keys[i] < keys[j]
  }

  ghost predicate Ascending(keys: seq<nat>, asc: map<nat, nat>) {
    forall i: nat :: i < |keys| ==> Link(asc, keys[i]) == KeyAt(keys, i + 1)
  }

  ghost predicate Descending(keys: seq<nat>, desc: map<nat, nat>) {
    forall i: nat :: i < |keys| ==> Link(desc, keys[i]) == KeyAt(keys, i - 1)
  }

  ghost predicate Members(keys: seq<nat>, all: set<nat>, asc: map<nat, nat>, desc: map<nat, nat>) {
    (forall k :: k in all <==> k in keys) && asc.Keys <= all && desc.Keys <= all
  }

  /** The doubly linked list of the bottom indices in `all`, in ascending order. */
  ghost predicate Listed(keys: seq<nat>, all: set<nat>, asc: map<nat, nat>, desc: map<nat, nat>, first: Option<nat>,
                         last: Option<nat>) {
    && Sorted(keys) && Ascending(keys, asc) && Descending(keys, desc) && Members(keys, all, asc, desc)
    && first == KeyAt(keys, 0) && last == KeyAt(keys, |keys| - 1)
  }

  function Link(links: map<nat, nat>, k: nat): Option<nat> {
    if k in links then Some(links[k]) else None
  }

  // ---------- facts about blocks

  lemma BlocksApart(ix: Levels, b: nat, b': nat)
    requires Good(ix) && b < b' && At(ix, b).Header? && At(ix, b').Header?
    ensures b + Pages(At(ix, b).sz) <= b'
  {
    if Inner(ix, b, b') { NoHeaderInside(ix, b, b'); }
  }

  lemma NoHeaderInside(ix: Levels, b: nat, p: nat)
    requires Good(ix) && Inner(ix, b, p)
    ensures !At(ix, p).Header?
  {
  }

  /** The block a page belongs to is unique. */
  lemma OneBlock(ix: Levels, b: nat, b': nat, p: nat)
    requires Good(ix) && (p == b || Inner(ix, b, p)) && (p == b' || Inner(ix, b', p))
    requires At(ix, b).Header? && At(ix, b').Header?
    ensures b == b'
  {
    if b < b' { BlocksApart(ix, b, b'); }
    if b' < b { BlocksApart(ix, b', b); }
  }

  /** Going back by a page's forwarding count stays in its block and passes no header. */
  lemma Back(ix: Levels, p: nat) returns (b: nat)
    requires Good(ix) && At(ix, p).Forward?
    ensures Live(ix, b) && Inner(ix, b, p) && 0 < At(ix, p).n <= p - b
    ensures p - At(ix, p).n == b || Inner(ix, b, p - At(ix, p).n)
    ensures forall q: nat :: b < q <= p ==> !At(ix, q).Header?
  {
    b :| Inner(ix, b, p) && Live(ix, b);
    forall q: nat | b < q <= p ensures !At(ix, q).Header? { assert Inner(ix, b, q); }
  }

  /** A count is 1 exactly on a block's second page. */
  lemma CountOne(ix: Levels, p: nat)
    requires Good(ix) && At(ix, p).Forward?
    ensures p > 0 && (At(ix, p).n == 1 <==> At(ix, p - 1).Header?)
  {
    var b := Back(ix, p);
    if At(ix, p - 1).Header? {
      OneBlock(ix, b, p - 1, p - 1);
    }
  }

  /** An index in which it occurs. */
  lemma CountOneOccurs() returns (ix: Levels)
    ensures Good(ix) && At(ix, 3) == Forward(1)
  {
    ix := map[0 := seq(1024, i => if i == 2 then Header(8192, false) else if i == 3 then Forward(1) else Nil)];
    assert forall p: nat :: p < 1024 ==> At(ix, p) == ix[0][p];
    assert forall b: nat, p: nat :: Inner(ix, b, p) ==> b == 2 && p == 3;
    assert Inner(ix, 2, 3) && Live(ix, 2);
  }

  // ---------- changes of the index, page by page

  /** Only page h changes, to e. */
  ghost predicate SetTo(ix: Levels, ix': Levels, h: nat, e: Entry) {
    Shaped(ix) && Shaped(ix') && forall p: nat :: At(ix', p) == if p == h then e else At(ix, p)
  }

  /** A block's header becomes e, and its later pages get their counts. */
  ghost predicate Counted(ix: Levels, ix': Levels, h: nat, e: Entry, n: nat) {
    Shaped(ix) && Shaped(ix')
    && forall p: nat :: At(ix', p) == if p == h then e else if h < p < h + n then Forward(Jump(p - h)) else At(ix, p)
  }

  /** A block's header becomes e, and its later pages are cleared. */
  ghost predicate Uncounted(ix: Levels, ix': Levels, h: nat, e: Entry, n: nat) {
    Shaped(ix) && Shaped(ix')
    && forall p: nat :: At(ix', p) == if p == h then e else if h < p < h + n then Nil else At(ix, p)
  }

  /** No block reaches into the n pages from h. */
  ghost predicate Unused(ix: Levels, h: nat, n: nat)
    requires Shaped(ix)
  {
    forall p: nat :: h <= p < h + n ==> !At(ix, p).Header? && forall b: nat :: !Inner(ix, b, p)
  }

  /** A new free block where there was none. */
  lemma AddedGood(ix: Levels, ix': Levels, h: nat, sz: nat)
    requires Good(ix) && SizeOk(sz, true) && Unused(ix, h, Pages(sz)) && SetTo(ix, ix', h, Header(sz, true))
    ensures Good(ix')
  {
    forall b: nat, p: nat | Inner(ix', b, p)
      ensures At(ix', p) == if At(ix', b).free then Nil else Forward(Jump(p - b))
    {
      if b == h {
        if At(ix, p).Forward? { var b0 := Back(ix, p); assert false; }
      } else {
        assert Inner(ix, b, p);
        assert p != h;
      }
    }
    forall p: nat | At(ix', p).Forward? ensures exists b: nat :: Inner(ix', b, p) && Live(ix', b) {
      var b: nat :| Inner(ix, b, p) && Live(ix, b);
      assert Inner(ix', b, p) && Live(ix', b);
    }
  }

  lemma Elsewhere(ix: Levels, b: nat, h: nat, p: nat)
    requires Good(ix) && Inner(ix, b, p) && At(ix, h).Header? && b != h
    ensures p < h || h + Pages(At(ix, h).sz) <= p
  {
    if p == h { NoHeaderInside(ix, b, p); }
    if Inner(ix, h, p) { OneBlock(ix, b, h, p); }
  }

  lemma WholePages(n: nat)
    requires n > 0
    ensures SizeOk(4096 * n, true) && Pages(4096 * n) == n
  {
    assert 4096 * n == 8 * (512 * n);
  }

  lemma SizeWhole(sz: nat, free: bool)
    requires SizeOk(sz, free)
    ensures SizeOk(4096 * Pages(sz), true) && Pages(4096 * Pages(sz)) == Pages(sz) > 0
  {
    assert Pages(sz) > 0;
    hide SizeOk, Pages;
    WholePages(Pages(sz));
  }

  lemma SizeSum(a: nat, b: nat)
    requires SizeOk(a, true) && SizeOk(b, true)
    ensures SizeOk(a + b, true)
  {
    var n, m := a / 4096, b / 4096;
    assert a == 4096 * n && b == 4096 * m && n > 0;
    hide SizeOk;
    WholePages(n + m);
  }

  lemma SizeParts(sz: nat, n: nat)
    requires SizeOk(sz, true) && 0 < n < Pages(sz)
    ensures SizeOk(4096 * n, true) && sz >= 4096 * n && SizeOk(sz - 4096 * n, true)
  {
    var m := sz / 4096 - n;
    assert sz == 4096 * n + 4096 * m && m > 0;
    hide SizeOk, Pages;
    WholePages(n);
    WholePages(m);
  }

  /** A free block becomes an allocated one of as many pages. */
  lemma AllocatedGood(ix: Levels, ix': Levels, h: nat, sz: nat)
    requires Good(ix) && At(ix, h).Header? && At(ix, h).free && Pages(sz) == Pages(At(ix, h).sz) && SizeOk(sz, false)
    requires Counted(ix, ix', h, Header(sz, false), Pages(sz))
    ensures Good(ix')
  {
    hide At, Pages, Jump, SizeOk;
    forall b: nat, p: nat | Inner(ix', b, p)
      ensures At(ix', p) == if At(ix', b).free then Nil else Forward(Jump(p - b))
    {
      assert Inner(ix, b, p);
      if b != h { Elsewhere(ix, b, h, p); }
    }
    forall p: nat | At(ix', p).Forward? ensures exists b: nat :: Inner(ix', b, p) && Live(ix', b) {
      if h < p < h + Pages(sz) {
        assert Inner(ix', h, p) && Live(ix', h);
      } else {
        var b: nat :| Inner(ix, b, p) && Live(ix, b);
        if Inner(ix, h, b) { NoHeaderInside(ix, h, b); }
        assert Inner(ix', b, p) && Live(ix', b);
      }
    }
  }

  /** An allocated block becomes a free one of as many pages. */
  lemma FreedGood(ix: Levels, ix': Levels, h: nat)
    requires Good(ix) && At(ix, h).Header?
    requires Uncounted(ix, ix', h, Header(4096 * Pages(At(ix, h).sz), true), Pages(At(ix, h).sz))
    ensures Good(ix')
  {
    hide At, Pages, Jump, SizeOk;
    SizeWhole(At(ix, h).sz, At(ix, h).free);
    forall b: nat, p: nat | Inner(ix', b, p)
      ensures At(ix', p) == if At(ix', b).free then Nil else Forward(Jump(p - b))
    {
      assert Inner(ix, b, p);
      if b != h { Elsewhere(ix, b, h, p); }
    }
    forall p: nat | At(ix', p).Forward? ensures exists b: nat :: Inner(ix', b, p) && Live(ix', b) {
      var b: nat :| Inner(ix, b, p) && Live(ix, b);
      assert p != h && !Inner(ix, h, p);
      assert Inner(ix', b, p) && Live(ix', b);
    }
  }

  lemma PagesOfWhole(n: nat, m: nat)
    ensures Pages(4096 * n) == n && Pages(4096 * m) == m && Pages(4096 * n + 4096 * m) == n + m
  {
  }

  lemma PagesExact(sz: nat)
    requires SizeOk(sz, true)
    ensures sz == 4096 * Pages(sz)
  {
  }

  /** Where the pages of a block of ix' lie in ix, when a free block is split in two. */
  lemma SplitInner(ix: Levels, ix1: Levels, ix': Levels, h: nat, n: nat, b: nat, p: nat)
    requires Good(ix) && At(ix, h).Header? && At(ix, h).free && 0 < n < Pages(At(ix, h).sz)
    requires SetTo(ix, ix1, h + n, Header(At(ix, h).sz - 4096 * n, true)) && SetTo(ix1, ix', h, Header(4096 * n, true))
    requires Inner(ix', b, p)
    ensures Inner(ix, if b == h + n then h else b, p) && p != h && p != h + n
    ensures At(ix', p) == At(ix, p) && At(ix', b).free == At(ix, if b == h + n then h else b).free
  {
    hide At, Pages, Jump, SizeOk;
    PagesExact(At(ix, h).sz);
    PagesOfWhole(n, Pages(At(ix, h).sz) - n);
    assert Inner(ix, h, h + n);
    if b != h && b != h + n {
      assert Inner(ix, b, p);
      Elsewhere(ix, b, h, p);
    }
  }

  /** A free block becomes two. */
  lemma SplitGood(ix: Levels, ix1: Levels, ix': Levels, h: nat, n: nat)
    requires Good(ix) && At(ix, h).Header? && At(ix, h).free && 0 < n < Pages(At(ix, h).sz)
    requires SetTo(ix, ix1, h + n, Header(At(ix, h).sz - 4096 * n, true)) && SetTo(ix1, ix', h, Header(4096 * n, true))
    ensures Good(ix')
  {
    hide At, Jump, Pages, SizeOk;
    SizeParts(At(ix, h).sz, n);
    PagesExact(At(ix, h).sz);
    forall b: nat, p: nat | Inner(ix', b, p)
      ensures At(ix', p) == if At(ix', b).free then Nil else Forward(Jump(p - b))
    {
      SplitInner(ix, ix1, ix', h, n, b, p);
    }
    assert Inner(ix, h, h + n);
    forall p: nat | At(ix', p).Forward? ensures exists b: nat :: Inner(ix', b, p) && Live(ix', b) {
      var b: nat :| Inner(ix, b, p) && Live(ix, b);
      assert Inner(ix', b, p) && Live(ix', b);
    }
  }

  /** Where the pages of a block of ix' lie in ix, when two free blocks are merged. */
  lemma MergedInner(ix: Levels, ix1: Levels, ix': Levels, h: nat, n: nat, b: nat, p: nat)
    requires Good(ix) && At(ix, h).Header? && At(ix, h).free && n == h + Pages(At(ix, h).sz)
    requires At(ix, n).Header? && At(ix, n).free
    requires SetTo(ix, ix1, n, Nil) && SetTo(ix1, ix', h, Header(At(ix, h).sz + At(ix, n).sz, true))
    requires Inner(ix', b, p)
    ensures p != h
    ensures if b == h then p == n || Inner(ix, h, p) || Inner(ix, n, p) else b != n && Inner(ix, b, p) && p != n
  {
    hide At, Pages, Jump, SizeOk;
    PagesExact(At(ix, h).sz);
    PagesExact(At(ix, n).sz);
    PagesOfWhole(Pages(At(ix, h).sz), Pages(At(ix, n).sz));
    if b != h {
      Elsewhere(ix, b, h, p);
      Elsewhere(ix, b, n, p);
    }
  }

  /** Two free blocks become one. */
  lemma MergedGood(ix: Levels, ix1: Levels, ix': Levels, h: nat, n: nat)
    requires Good(ix) && At(ix, h).Header? && At(ix, h).free && n == h + Pages(At(ix, h).sz)
    requires At(ix, n).Header? && At(ix, n).free
    requires SetTo(ix, ix1, n, Nil) && SetTo(ix1, ix', h, Header(At(ix, h).sz + At(ix, n).sz, true))
    ensures Good(ix')
  {
    hide At, Pages, Jump, SizeOk;
    SizeSum(At(ix, h).sz, At(ix, n).sz);
    forall b: nat, p: nat | Inner(ix', b, p)
      ensures At(ix', p) == if At(ix', b).free then Nil else Forward(Jump(p - b))
    {
      MergedInner(ix, ix1, ix', h, n, b, p);
      if b == h && p != n {
        assert At(ix, p) == Nil;
      }
    }
    forall p: nat | At(ix', p).Forward? ensures exists b: nat :: Inner(ix', b, p) && Live(ix', b) {
      var b: nat :| Inner(ix, b, p) && Live(ix, b);
      assert Inner(ix', b, p) && Live(ix', b);
    }
  }

  lemma GoodShaped(ix: Levels)
    requires Good(ix)
    ensures Shaped(ix)
  {
  }

  lemma GoodSame(ix: Levels, ix': Levels)
    requires Good(ix) && Shaped(ix') && forall p: nat :: At(ix', p) == At(ix, p)
    ensures Good(ix')
  {
    hide At;
    forall p: nat | At(ix', p).Forward? ensures exists b: nat :: Inner(ix', b, p) && Live(ix', b) {
      var b: nat :| Inner(ix, b, p) && Live(ix, b);
      assert Inner(ix', b, p) && Live(ix', b);
    }
    assert forall b: nat, p: nat :: Inner(ix', b, p) ==> Inner(ix, b, p);
  }

  // ---------- the list

  function Inserted(keys: seq<nat>, i: nat, hi: nat): (r: seq<nat>)
    requires i <= |keys|
    ensures |r| == |keys| + 1
  {
    keys[..i] + [hi] + keys[i..]
  }

  lemma InsertedAt(keys: seq<nat>, i: nat, hi: nat, n: nat)
    requires i <= |keys| && n <= |keys|
    ensures Inserted(keys, i, hi)[n] == if n < i then keys[n] else if n == i then hi else keys[n - 1]
  {
  }

  lemma InsertedKeyAt(keys: seq<nat>, i: nat, hi: nat, n: int)
    requires i <= |keys|
    ensures KeyAt(Inserted(keys, i, hi), n) == if n < i then KeyAt(keys, n)
                                               else if n == i then Some(hi) else KeyAt(keys, n - 1)
  {
    if 0 <= n <= |keys| { InsertedAt(keys, i, hi, n); }
  }

  lemma InsertedAscending(keys: seq<nat>, asc: map<nat, nat>, i: nat, hi: nat, asc': map<nat, nat>)
    requires Sorted(keys) && Ascending(keys, asc) && i <= |keys| && hi !in asc && hi !in keys
    requires asc' == (if i > 0 then asc[keys[i - 1] := hi] else asc)
                     + (if i < |keys| then map[hi := keys[i]] else map[])
    ensures Ascending(Inserted(keys, i, hi), asc')
  {
    hide Inserted, Sorted, Ascending;
    forall n: nat | n <= |keys| ensures Link(asc', Inserted(keys, i, hi)[n]) == KeyAt(Inserted(keys, i, hi), n + 1) {
      InsertedAt(keys, i, hi, n);
      InsertedKeyAt(keys, i, hi, n + 1);
      if n != i {
        var m := if n < i then n else n - 1;
        AscendingAt(keys, asc, m);
        if i > 0 && m != i - 1 { SortedAt(keys, m, i - 1); }
        assert keys[m] != hi;
      }
    }
    AscendingFrom(Inserted(keys, i, hi), asc');
  }

  lemma AscendingAt(keys: seq<nat>, asc: map<nat, nat>, m: nat)
    requires Ascending(keys, asc) && m < |keys|
    ensures Link(asc, keys[m]) == KeyAt(keys, m + 1)
  {
  }

  lemma AscendingFrom(keys: seq<nat>, asc: map<nat, nat>)
    requires forall n: nat :: n < |keys| ==> Link(asc, keys[n]) == KeyAt(keys, n + 1)
    ensures Ascending(keys, asc)
  {
  }

  lemma SortedAt(keys: seq<nat>, m: nat, n: nat)
    requires Sorted(keys) && m < |keys| && n < |keys| && m != n
    ensures keys[m] != keys[n] && (m < n <==> keys[m] < keys[n])
  {
  }

  lemma DescendingAt(keys: seq<nat>, desc: map<nat, nat>, m: nat)
    requires Descending(keys, desc) && m < |keys|
    ensures Link(desc, keys[m]) == KeyAt(keys, m - 1)
  {
  }

  lemma DescendingFrom(keys: seq<nat>, desc: map<nat, nat>)
    requires forall n: nat :: n < |keys| ==> Link(desc, keys[n]) == KeyAt(keys, n - 1)
    ensures Descending(keys, desc)
  {
  }

  lemma InsertedDescending(keys: seq<nat>, desc: map<nat, nat>, i: nat, hi: nat, desc': map<nat, nat>)
    requires Sorted(keys) && Descending(keys, desc) && i <= |keys| && hi !in desc && hi !in keys
    requires desc' == (if i < |keys| then desc[keys[i] := hi] else desc)
                      + (if i > 0 then map[hi := keys[i - 1]] else map[])
    ensures Descending(Inserted(keys, i, hi), desc')
  {
    hide Inserted, Sorted, Descending;
    forall n: nat | n <= |keys| ensures Link(desc', Inserted(keys, i, hi)[n]) == KeyAt(Inserted(keys, i, hi), n - 1) {
      InsertedAt(keys, i, hi, n);
      InsertedKeyAt(keys, i, hi, n - 1);
      if n != i {
        var m := if n < i then n else n - 1;
        DescendingAt(keys, desc, m);
        if i < |keys| && m != i { SortedAt(keys, m, i); }
        assert keys[m] != hi;
      }
    }
    DescendingFrom(Inserted(keys, i, hi), desc');
  }

  lemma InsertedSorted(keys: seq<nat>, i: nat, hi: nat)
    requires Sorted(keys) && i <= |keys| && (i > 0 ==> keys[i - 1] < hi) && (i < |keys| ==> hi < keys[i])
    ensures Sorted(Inserted(keys, i, hi))
  {
    var keys' := Inserted(keys, i, hi);
    hide Inserted;
    forall m: nat, n: nat | m < n < |keys'| ensures keys'[m] < keys'[n] {
      InsertedAt(keys, i, hi, m);
      InsertedAt(keys, i, hi, n);
    }
  }

  lemma InsertedMembers(keys: seq<nat>, i: nat, hi: nat)
    requires i <= |keys|
    ensures forall k :: k in Inserted(keys, i, hi) <==> k in keys || k == hi
  {
    assert keys == keys[..i] + keys[i..];
  }

  /** A new bottom index between its neighbours. */
  lemma ListedInserted(keys: seq<nat>, all: set<nat>, asc: map<nat, nat>, desc: map<nat, nat>, first: Option<nat>,
                       last: Option<nat>,
                       i: nat, hi: nat, asc': map<nat, nat>, desc': map<nat, nat>)
    requires Listed(keys, all, asc, desc, first, last) && hi !in all && i <= |keys|
    requires (i > 0 ==> keys[i - 1] < hi) && (i < |keys| ==> hi < keys[i])
    requires asc' == (if i > 0 then asc[keys[i - 1] := hi] else asc)
                     + (if i < |keys| then map[hi := keys[i]] else map[])
    requires desc' == (if i < |keys| then desc[keys[i] := hi] else desc)
                      + (if i > 0 then map[hi := keys[i - 1]] else map[])
    ensures Listed(Inserted(keys, i, hi), all + {hi}, asc', desc', if i == 0 then Some(hi) else first,
                   if i == |keys| then Some(hi) else last)
  {
    hide Sorted, Ascending, Descending, Inserted;
    InsertedSorted(keys, i, hi);
    InsertedMembers(keys, i, hi);
    InsertedKeyAt(keys, i, hi, 0);
    InsertedKeyAt(keys, i, hi, |keys|);
    InsertedAscending(keys, asc, i, hi, asc');
    InsertedDescending(keys, desc, i, hi, desc');
  }

  lemma NewLevel(ix: Levels, hi: nat, ix': Levels)
    requires Shaped(ix) && hi !in ix && ix' == ix[hi := seq(1024, _ => Nil)]
    ensures Shaped(ix') && forall p: nat :: At(ix', p) == At(ix, p)
  {
  }

  lemma SetOne(ix: Levels, p: nat, e: Entry)
    requires Shaped(ix) && p / 1024 in ix
    ensures SetTo(ix, ix[p / 1024 := ix[p / 1024][p % 1024 := e]], p, e)
  {
    var ix' := ix[p / 1024 := ix[p / 1024][p % 1024 := e]];
    forall q: nat ensures At(ix', q) == if q == p then e else At(ix, q) {
      if q / 1024 == p / 1024 && q % 1024 == p % 1024 {
        Arithmetic.DivDefinition(q, 1024);
        Arithmetic.DivDefinition(p, 1024);
      }
    }
  }

  /** The page that entry j of bottom index k stands for. */
  function Page(k: nat, j: int): int {
    1024 * k + j
  }

  lemma AtPage(ix: Levels, k: nat, j: nat)
    requires Shaped(ix) && j < 1024 && k in ix
    ensures At(ix, Page(k, j)) == ix[k][j]
  {
  }

  ghost predicate NoHeaders(ix: Levels, lo: int, hi: int)
    requires Shaped(ix)
  {
    forall q: nat :: lo <= q <= hi ==> !At(ix, q).Header?
  }

  /** No page above the i-th bottom index and below the next one that has one has an entry. */
  lemma Gap(keys: seq<nat>, ix: Levels, i: int, q: nat)
    requires Shaped(ix) && Sorted(keys) && forall k :: k in ix <==> k in keys
    requires -1 <= i < |keys| && (i >= 0 ==> keys[i] < q / 1024) && (i + 1 < |keys| ==> q / 1024 < keys[i + 1])
    ensures At(ix, q) == Nil
  {
    NotBetween(keys, i, q / 1024);
  }

  lemma NotBetween(keys: seq<nat>, i: int, k: nat)
    requires Sorted(keys) && -1 <= i < |keys|
    requires (i >= 0 ==> keys[i] < k) && (i + 1 < |keys| ==> k < keys[i + 1])
    ensures k !in keys
  {
    forall n: nat | n < |keys| ensures keys[n] != k {
      if n < i { SortedAt(keys, n, i); }
      if i + 1 < n { SortedAt(keys, n, i + 1); }
    }
  }

  /** Passing from the i-th bottom index to the one before. */
  lemma StepDown(keys: seq<nat>, ix: Levels, i: nat, j: int, h: nat)
    requires Shaped(ix) && Sorted(keys) && forall k :: k in ix <==> k in keys
    requires i < |keys| && j < 0 && NoHeaders(ix, Page(keys[i], j) + 1, h)
    ensures NoHeaders(ix, if i > 0 then Page(keys[i - 1], 1023) + 1 else 0, h)
  {
    forall q: nat | (if i > 0 then Page(keys[i - 1], 1023) + 1 else 0) <= q <= h ensures !At(ix, q).Header? {
      if q < 1024 * keys[i] { Gap(keys, ix, i - 1, q); }
    }
  }

  /** Passing from the i-th bottom index to the one after. */
  lemma StepUp(keys: seq<nat>, ix: Levels, i: nat, h: nat, wanted: Entry -> bool)
    requires Shaped(ix) && Sorted(keys) && forall k :: k in ix <==> k in keys
    requires i < |keys| && Missing(ix, h, 1024 * keys[i] + 1023, wanted) && !wanted(Nil)
    ensures if i + 1 < |keys| then Missing(ix, h, 1024 * keys[i + 1] - 1, wanted)
            else forall q: nat :: h <= q ==> !wanted(At(ix, q))
  {
    forall q: nat | h <= q && (i + 1 < |keys| ==> q < 1024 * keys[i + 1]) ensures !wanted(At(ix, q)) {
      if q > 1024 * keys[i] + 1023 { Gap(keys, ix, i, q); }
    }
  }

  /** No page from lo to hi has a wanted entry. */
  ghost predicate Missing(ix: Levels, lo: nat, hi: int, wanted: Entry -> bool)
    requires Shaped(ix)
  {
    forall q: nat :: lo <= q <= hi ==> !wanted(At(ix, q))
  }

  predicate Wanted(e: Entry, allowFree: bool) {
    e.Header? && (allowFree || !e.free)
  }

  lemma MissingMore(ix: Levels, lo: nat, p: nat, wanted: Entry -> bool)
    requires Shaped(ix) && Missing(ix, lo, p - 1, wanted) && !wanted(At(ix, p))
    ensures Missing(ix, lo, p, wanted)
  {
  }

  lemma MissingLess(ix: Levels, lo: nat, hi: int, hi': int, wanted: Entry -> bool)
    requires Shaped(ix) && Missing(ix, lo, hi, wanted) && hi' <= hi
    ensures Missing(ix, lo, hi', wanted)
  {
  }

  lemma NoHeadersMore(ix: Levels, lo: int, mid: nat, hi: int)
    requires Shaped(ix) && NoHeaders(ix, mid + 1, hi)
    requires forall q: nat :: lo <= q <= mid ==> !At(ix, q).Header?
    ensures NoHeaders(ix, lo, hi)
  {
  }

  /** No block starts inside a free block. */
  lemma FreeSkipped(ix: Levels, b: nat, h: nat, allowFree: bool)
    requires Good(ix) && At(ix, b).Header? && !Wanted(At(ix, b), allowFree)
    requires Missing(ix, h, b - 1, e => Wanted(e, allowFree))
    ensures Missing(ix, h, b + At(ix, b).sz / 4096 - 1, e => Wanted(e, allowFree)) && At(ix, b).sz / 4096 > 0
  {
    forall q: nat | h <= q < b + At(ix, b).sz / 4096 ensures !Wanted(At(ix, q), allowFree) {
      if b < q { assert Inner(ix, b, q); }
    }
  }

  /** o is the start of an object, of sz bytes, in the allocated block b: one of as many as fit on the
      page, or the only one of a large block. */
  ghost predicate ObjectAt(ix: Levels, b: nat, o: nat, sz: nat)
    requires Shaped(ix)
  {
    Live(ix, b) && sz == At(ix, b).sz && 4096 * b <= o
    && if 0 < sz <= 4096 then (o - 4096 * b) % sz == 0 && o - 4096 * b + sz <= 4096 else o == 4096 * b
  }

  /** An object containing an address is in the block of the address's page. */
  lemma ObjectInBlock(ix: Levels, b: nat, o: nat, sz: nat, p: nat)
    requires Good(ix) && ObjectAt(ix, b, o, sz) && o <= p < o + sz
    ensures b == p / 4096 || Inner(ix, b, p / 4096)
  {
    if sz <= 4096 {
      assert 4096 * b <= p < 4096 * b + 4096;
    } else {
      assert p < 4096 * b + sz <= 4096 * (b + Pages(sz));
    }
  }

  /** The object boundary at or below an offset is the only one that can be the start of an object
      containing it. */
  lemma OnlyBoundary(offset: nat, x: nat, sz: nat)
    requires sz > 0 && x % sz == 0 && x <= offset < x + sz
    ensures x == offset - offset % sz
  {
    Arithmetic.DivDefinition(x, sz);
    Arithmetic.DivUnique(offset, sz, x / sz);
  }

  lemma BoundaryBelow(offset: nat, sz: nat)
    requires sz > 0
    ensures offset % sz <= offset && (offset - offset % sz) % sz == 0 && offset % sz < sz
  {
    Arithmetic.DivDefinition(offset, sz);
    var x := offset - offset % sz;
    Arithmetic.DivUnique(x, sz, offset / sz);
  }

  /** Multiples of a number of whole words are whole words. */
  lemma WordMultiple(x: nat, sz: nat)
    requires sz > 0 && sz % 8 == 0 && x % sz == 0
    ensures x % 8 == 0
  {
    Arithmetic.DivDefinition(x, sz);
    var q, w := x / sz, sz / 8;
    assert sz == 8 * w;
    assert x == 8 * (q * w);
  }

  /** The pages visited are, once each, the live blocks of the bottom indices done and of the entries
      from j on of bottom index k. */
  ghost predicate Visited(ix: Levels, done: seq<nat>, k: nat, j: nat, visited: seq<nat>)
    requires Shaped(ix)
  {
    && (forall p: nat :: p in visited <==> Live(ix, p) && (p / 1024 in done || (p / 1024 == k && p % 1024 >= j)))
    && (forall m: nat, n: nat :: m < n < |visited| ==> visited[m] != visited[n])
  }

  lemma VisitedOne(ix: Levels, done: seq<nat>, k: nat, j: nat, visited: seq<nat>)
    requires Shaped(ix) && k in ix && k !in done && j < 1024 && Visited(ix, done, k, j + 1, visited)
    ensures Visited(ix, done, k, j, if Live(ix, 1024 * k + j) then visited + [1024 * k + j] else visited)
  {
    assert forall p: nat :: p / 1024 == k && p % 1024 == j <==> p == 1024 * k + j;
  }

  /** Entries without headers are skipped. */
  lemma VisitedSkip(ix: Levels, done: seq<nat>, k: nat, j: nat, n: nat, visited: seq<nat>)
    requires Shaped(ix) && k in ix && j < 1024 && Visited(ix, done, k, j + 1, visited) && n > 0
    requires NoHeaders(ix, 1024 * k + j - n + 1, 1024 * k + j)
    ensures Visited(ix, done, k, if j < n then 0 else j - n + 1, visited)
  {
    forall p: nat | p / 1024 == k && p % 1024 <= j && p % 1024 > j - n ensures !Live(ix, p) {
      assert 1024 * k + j - n + 1 <= p <= 1024 * k + j;
    }
  }

  lemma FreeSize(ix: Levels, h: nat)
    requires Good(ix) && At(ix, h).Header?
    ensures SizeOk(At(ix, h).sz, At(ix, h).free) && Pages(At(ix, h).sz) > 0
  {
  }

  lemma VisitedBegin(ix: Levels, done: seq<nat>, k: nat, visited: seq<nat>)
    requires Shaped(ix) && Visited(ix, done, 0, 1024, visited)
    ensures Visited(ix, done, k, 1024, visited)
  {
  }

  lemma VisitedNone(ix: Levels)
    requires Shaped(ix)
    ensures Visited(ix, [], 0, 1024, [])
  {
  }

  lemma VisitedAll(ix: Levels, keys: seq<nat>, visited: seq<nat>)
    requires Shaped(ix) && (forall k :: k in ix <==> k in keys) && Visited(ix, keys, 0, 1024, visited)
    ensures forall p: nat :: p in visited <==> Live(ix, p)
    ensures forall m: nat, n: nat :: m < n < |visited| ==> visited[m] != visited[n]
  {
  }

  lemma NotEarlier(keys: seq<nat>, i: nat)
    requires Sorted(keys) && i < |keys|
    ensures keys[i] !in keys[..i]
  {
  }

  lemma VisitedLevel(ix: Levels, done: seq<nat>, k: nat, visited: seq<nat>)
    requires Shaped(ix) && Visited(ix, done, k, 0, visited)
    ensures Visited(ix, done + [k], 0, 1024, visited)
  {
  }

  /** What GC_base computes: from the block of the address's page, the offset down to a word, and the
      object boundary below it. */
  ghost predicate BaseOf(ix: Levels, p: nat, b: nat, offset: nat, o: nat)
    requires Shaped(ix)
  {
    && At(ix, b).Header? && (p / 4096 == b || Inner(ix, b, p / 4096)) && At(ix, b).sz > 0
    && offset == Offset(p, b) && o == Boundary(b, offset, At(ix, b).sz)
  }

  /** The offset in block b of the word at p, or 0 if p is on a later page. */
  function Offset(p: nat, b: nat): nat {
    if b == p / 4096 then p - p % 8 - 4096 * b else 0
  }

  function Boundary(b: nat, offset: nat, sz: nat): nat
    requires sz > 0
  {
    BoundaryBelow(offset, sz);
    4096 * b + offset - offset % sz
  }

  lemma BaseFound(ix: Levels, p: nat, b: nat, offset: nat, o: nat)
    requires Good(ix) && BaseOf(ix, p, b, offset, o) && Live(ix, b)
    requires var sz := At(ix, b).sz; !(o + sz > 4096 * (b + 1) && sz <= 4096) && p < o + sz
    ensures ObjectAt(ix, b, o, At(ix, b).sz) && o <= p
  {
    BoundaryBelow(offset, At(ix, b).sz);
    if At(ix, b).sz > 4096 { Arithmetic.DivUnique(offset, At(ix, b).sz, 0); }
  }

  lemma OffsetIs(p: nat, b: nat)
    requires b == p / 4096
    ensures p >= 4096 * b && Offset(p, b) == (p - 4096 * b) - (p - 4096 * b) % 8
  {
    var r, q := p - 4096 * b, p / 8 - 512 * b;
    assert r == 8 * q + p % 8;
    Arithmetic.DivUnique(r, 8, q);
  }

  lemma SmallBoundary(p: nat, b: nat, o: nat, sz: nat)
    requires b == p / 4096 && 4096 * b <= o <= p < o + sz && sz % 8 == 0 && (o - 4096 * b) % sz == 0
    ensures Boundary(b, Offset(p, b), sz) == o
  {
    var x := o - 4096 * b;
    WordMultiple(x, sz);
    WordBelow(x, p - 4096 * b);
    OffsetIs(p, b);
    hide Offset;
    OnlyBoundary(Offset(p, b), x, sz);
  }

  lemma LargeBoundary(p: nat, b: nat, sz: nat)
    requires sz > 4096
    ensures Boundary(b, Offset(p, b), sz) == 4096 * b
  {
    Arithmetic.DivUnique(Offset(p, b), sz, 0);
  }

  lemma BaseOnly(ix: Levels, p: nat, b: nat, offset: nat, o: nat, b': nat, o': nat, sz: nat)
    requires Good(ix) && BaseOf(ix, p, b, offset, o)
    requires ObjectAt(ix, b', o', sz) && o' <= p < o' + sz
    ensures b' == b && o' == o && sz == At(ix, b).sz && Live(ix, b) && !(o + sz > 4096 * (b + 1) && sz <= 4096)
  {
    hide Boundary, Offset, At;
    ObjectInBlock(ix, b', o', sz, p);
    OneBlock(ix, b', b, p / 4096);
    if sz <= 4096 { SmallBoundary(p, b, o', sz); } else { LargeBoundary(p, b, sz); }
  }

  lemma BaseNone(ix: Levels, p: nat, b: nat, offset: nat, o: nat)
    requires Good(ix) && BaseOf(ix, p, b, offset, o)
    requires var sz := At(ix, b).sz; !Live(ix, b) || (o + sz > 4096 * (b + 1) && sz <= 4096) || p >= o + sz
    ensures OutsideAll(ix, p)
  {
    hide ObjectAt, BaseOf, At;
    forall b': nat, o': nat, sz': nat | ObjectAt(ix, b', o', sz') ensures !(o' <= p < o' + sz') {
      if o' <= p < o' + sz' { BaseOnly(ix, p, b, offset, o, b', o', sz'); }
    }
  }

  lemma NilOutside(ix: Levels, p: nat)
    requires Good(ix) && At(ix, p / 4096) == Nil
    ensures OutsideAll(ix, p)
  {
    hide ObjectAt, At;
    forall b: nat, o: nat, sz: nat | ObjectAt(ix, b, o, sz) ensures !(o <= p < o + sz) {
      if o <= p < o + sz { NilNoObject(ix, b, o, sz, p); }
    }
  }

  lemma NilNoObject(ix: Levels, b: nat, o: nat, sz: nat, p: nat)
    requires Good(ix) && ObjectAt(ix, b, o, sz) && o <= p < o + sz
    ensures At(ix, p / 4096) != Nil
  {
    ObjectInBlock(ix, b, o, sz, p);
  }

  /** The address is in no object. */
  ghost predicate OutsideAll(ix: Levels, p: nat)
    requires Shaped(ix)
  {
    forall b: nat, o: nat, sz: nat :: ObjectAt(ix, b, o, sz) ==> !(o <= p < o + sz)
  }

  lemma WordBelow(x: nat, y: nat)
    requires x % 8 == 0 && x <= y
    ensures x <= y - y % 8
  {
  }

  /** A block whose last page has no entry is a free block. */
  lemma NilEnds(ix: Levels, p: nat, h: nat)
    requires Good(ix) && h > 0 && At(ix, h - 1) == Nil && At(ix, p).Header? && p + Pages(At(ix, p).sz) == h && p < h
    ensures 4096 * p + At(ix, p).sz == 4096 * h
  {
    assert p != h - 1 && Inner(ix, p, h - 1);
    PagesExact(At(ix, p).sz);
  }
}