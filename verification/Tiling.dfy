/** Heap blocks as a tiling of the heap's pages: `sz` maps the first page of each block to its
    length in pages. */
module Tiling {

  ghost predicate Owns(sz: map<nat, nat>, a: nat, p: nat) {
    a in sz && a <= p < a + sz[a]
  }

  /** The blocks are non-empty, do not overlap and together are exactly `pages`. */
  ghost predicate Tiles(sz: map<nat, nat>, pages: set<nat>) {
    && (forall a :: a in sz ==> a > 0 && sz[a] > 0)
    && (forall a, p :: Owns(sz, a, p) ==> p in pages)
    && (forall a, b :: a in sz && b in sz && a < b ==> a + sz[a] <= b)
    && (forall p :: p in pages ==> exists a :: Owns(sz, a, p))
  }

  /** Lengths that cover the same pages by blocks that are positive and in order tile them too. */
  lemma TilesFrom(sz: map<nat, nat>, pages: set<nat>, sz': map<nat, nat>)
    requires Tiles(sz, pages) && forall a :: a in sz' ==> a > 0 && sz'[a] > 0
    requires forall a, b :: a in sz' && b in sz' && a < b ==> a + sz'[a] <= b
    requires forall a, p :: Owns(sz', a, p) ==> exists b :: Owns(sz, b, p)
    requires forall a, p :: Owns(sz, a, p) ==> exists b :: Owns(sz', b, p)
    ensures Tiles(sz', pages)
  {
    forall a: nat, p: nat | Owns(sz', a, p)
      ensures p in pages
    {
      var b :| Owns(sz, b, p);
    }
    forall p: nat | p in pages
      ensures exists a :: Owns(sz', a, p)
    {
      var b :| Owns(sz, b, p);
    }
  }

  lemma NoneInside(sz: map<nat, nat>, pages: set<nat>, h: nat, n: nat)
    requires Tiles(sz, pages) && h in sz && 0 < n < sz[h]
    ensures h + n !in sz
  {
  }

  lemma TilesSplit(sz: map<nat, nat>, pages: set<nat>, h: nat, n: nat)
    requires Tiles(sz, pages) && h in sz && 0 < n < sz[h]
    ensures h + n !in sz
    ensures Tiles(sz[h := n][h + n := sz[h] - n], pages)
  {
    var sz' := sz[h := n][h + n := sz[h] - n];
    NoneInside(sz, pages, h, n);
    forall a: nat, p: nat | Owns(sz, a, p)
      ensures exists b :: Owns(sz', b, p)
    {
      assert Owns(sz', if a == h && p >= h + n then h + n else a, p);
    }
    forall a: nat, p: nat | Owns(sz', a, p)
      ensures exists b :: Owns(sz, b, p)
    {
      assert Owns(sz, if a == h + n then h else a, p);
    }
    TilesFrom(sz, pages, sz');
  }

  /** The lengths after the block at h absorbed its successor. */
  ghost function Merged(sz: map<nat, nat>, h: nat): map<nat, nat> {
    if h in sz && h + sz[h] in sz then (sz - {h + sz[h]})[h := sz[h] + sz[h + sz[h]]] else sz
  }

  lemma MergedOwner(sz: map<nat, nat>, h: nat, a: nat, p: nat)
    requires h in sz && h + sz[h] in sz && sz[h] > 0
    ensures Owns(sz, a, p) ==> Owns(Merged(sz, h), if a == h + sz[h] then h else a, p)
    ensures Owns(Merged(sz, h), a, p) ==> Owns(sz, if a == h && p >= h + sz[h] then h + sz[h] else a, p)
  {
  }

  lemma MergedInOrder(sz: map<nat, nat>, pages: set<nat>, h: nat, a: nat, b: nat)
    requires Tiles(sz, pages) && h in sz && h + sz[h] in sz && a in Merged(sz, h) && b in Merged(sz, h) && a < b
    ensures a + Merged(sz, h)[a] <= b
  {
    var next := h + sz[h];
    if a == h {
      assert next <= b && next + sz[next] <= b;
    }
  }

  lemma MergedPositive(sz: map<nat, nat>, pages: set<nat>, h: nat)
    requires Tiles(sz, pages) && h in sz && h + sz[h] in sz
    ensures sz[h] > 0 && forall a :: a in Merged(sz, h) ==> a > 0 && Merged(sz, h)[a] > 0
  {
  }

  lemma TilesMerge(sz: map<nat, nat>, pages: set<nat>, h: nat)
    requires Tiles(sz, pages) && h in sz && h + sz[h] in sz
    ensures Tiles(Merged(sz, h), pages)
  {
    hide Tiles, Owns, Merged;
    MergedPositive(sz, pages, h);
    forall a: nat, p: nat | Owns(sz, a, p)
      ensures exists b :: Owns(Merged(sz, h), b, p)
    {
      MergedOwner(sz, h, a, p);
    }
    forall a: nat, p: nat | Owns(Merged(sz, h), a, p)
      ensures exists b :: Owns(sz, b, p)
    {
      MergedOwner(sz, h, a, p);
    }
    forall a, b | a in Merged(sz, h) && b in Merged(sz, h) && a < b
      ensures a + Merged(sz, h)[a] <= b
    {
      MergedInOrder(sz, pages, h, a, b);
    }
    TilesFrom(sz, pages, Merged(sz, h));
  }

  /** A section of n pages at p adds these pages to the heap. */
  ghost predicate Extends(pages: set<nat>, pages': set<nat>, p: nat, n: nat) {
    && (forall q :: q in pages' <==> q in pages || p <= q < p + n)
    && (forall q :: q in pages ==> !(p <= q < p + n))
  }

  lemma {:induction false} ExtendsSize(pages: set<nat>, pages': set<nat>, p: nat, n: nat)
    requires Extends(pages, pages', p, n)
    ensures |pages'| == |pages| + n
  {
    if n == 0 {
      assert pages' == pages;
    } else {
      var last: nat := p + n - 1;
      assert last in pages';
      ExtendsSize(pages, pages' - {last}, p, n - 1);
    }
  }

  /** A new section overlaps no block. */
  lemma Apart(sz: map<nat, nat>, pages: set<nat>, pages': set<nat>, p: nat, n: nat, a: nat)
    requires Tiles(sz, pages) && n > 0 && Extends(pages, pages', p, n) && a in sz
    ensures a + sz[a] <= p || p + n <= a
  {
    var q := if a < p then p else a;
    assert Owns(sz, a, q) ==> q in pages;
  }

  lemma TilesAdd(sz: map<nat, nat>, pages: set<nat>, pages': set<nat>, p: nat, n: nat)
    requires Tiles(sz, pages) && p > 0 && n > 0 && Extends(pages, pages', p, n)
    ensures p !in sz
    ensures Tiles(sz[p := n], pages')
  {
    var sz' := sz[p := n];
    forall a | a in sz
      ensures a + sz[a] <= p || p + n <= a
    {
      Apart(sz, pages, pages', p, n, a);
    }
    forall q: nat | q in pages'
      ensures exists a :: Owns(sz', a, q)
    {
      if p <= q < p + n {
        assert Owns(sz', p, q);
      } else {
        var a :| Owns(sz, a, q);
        assert Owns(sz', a, q);
      }
    }
    forall a: nat, q: nat | Owns(sz', a, q)
      ensures q in pages'
    {
      if a != p {
        assert Owns(sz, a, q);
      }
    }
  }

  lemma BlockFits(sz: map<nat, nat>, pages: set<nat>, a: nat)
    requires Tiles(sz, pages) && a in sz
    ensures sz[a] <= |pages|
  {
    var outside := set p | p in pages && !Owns(sz, a, p);
    forall q
      ensures q in pages <==> q in outside || a <= q < a + sz[a]
    {
      if a <= q < a + sz[a] {
        assert Owns(sz, a, q);
      }
    }
    ExtendsSize(outside, pages, a, sz[a]);
  }
}
