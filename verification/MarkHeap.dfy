/**
 The stopped heap as the marker sees it, and what it means to be reachable in it.

 Addresses and lengths are counted in units of ALIGNMENT bytes; a machine word covers
 `wordUnits` of them, so a word may start at any unit and words may overlap.
 */
module MarkHeap {

  /** A length-described area: a mark stack entry, an object body or a root area. */
  datatype Range = Range(start: int, len: nat)

  /** An allocated heap block: its objects, its mark descriptor (a length; 0 means
      pointer free) and whether it is of the uncollectable kind. */
  datatype Block = Block(objs: seq<nat>, descr: nat, uncollectable: bool)

  /** `ptr[q]` is the object that the word at address q is recognised to point to;
      `plausible` are the addresses whose word passes the heap-bounds test.
      `roots` are pushed as areas, `direct` are marked without being scanned, and
      `eager` are the objects found by scanning the collector's own frames. */
  datatype Heap = Heap(wordUnits: nat,
                       body: map<nat, Range>,
                       ptr: map<int, nat>,
                       plausible: set<int>,
                       blocks: seq<Block>,
                       premarked: set<nat>,
                       roots: seq<Range>,
                       direct: set<nat>,
                       eager: seq<nat>)

  /** The word at q lies inside r. */
  predicate Inside(h: Heap, r: Range, q: int) {
    r.start <= q && q + h.wordUnits <= r.start + r.len
  }

  ghost predicate InBlock(h: Heap, b: int, o: nat) {
    0 <= b < |h.blocks| && o in h.blocks[b].objs
  }

  ghost predicate Good(h: Heap) {
    && h.wordUnits > 0
    && h.ptr.Keys <= h.plausible
    && (forall q :: q in h.ptr ==> h.ptr[q] in h.body)
    && (forall o :: o in h.body ==> exists b :: InBlock(h, b, o))
    && (forall b, o :: InBlock(h, b, o) ==> o in h.body && h.body[o].len == h.blocks[b].descr)
    && (forall o :: o in h.premarked ==> exists b :: InBlock(h, b, o) && h.blocks[b].uncollectable)
    && (forall b, o :: InBlock(h, b, o) && o in h.premarked ==> h.blocks[b].uncollectable)
    && (forall r :: r in h.roots ==> r.len > 0)
    && (forall o :: o in h.direct ==> o in h.body && h.body[o].len == 0)
    && (forall o :: o in h.eager ==> o in h.body)
  }

  /** Some word of r points to o. */
  ghost predicate AreaPoints(h: Heap, r: Range, o: nat) {
    exists q :: Inside(h, r, q) && q in h.ptr && h.ptr[q] == o
  }

  /** o is where tracing starts: pre-marked, found in the collector's frames, marked
      outright, or pointed to from a root area. */
  ghost predicate Root(h: Heap, o: nat) {
    || o in h.premarked
    || o in h.direct
    || o in h.eager
    || exists r :: r in h.roots && AreaPoints(h, r, o)
  }

  ghost predicate Path(h: Heap, p: seq<nat>) {
    && |p| > 0
    && Root(h, p[0])
    && (forall i :: 0 <= i < |p| ==> p[i] in h.body)
    && (forall i :: 0 < i < |p| ==> AreaPoints(h, h.body[p[i - 1]], p[i]))
  }

  ghost predicate Reachable(h: Heap, o: nat) {
    exists p :: Path(h, p) && p[|p| - 1] == o
  }

  lemma RootReachable(h: Heap, o: nat)
    requires o in h.body && Root(h, o)
    ensures Reachable(h, o)
  {
    assert Path(h, [o]);
    assert [o][|[o]| - 1] == o;
  }

  lemma StepReachable(h: Heap, o: nat, o': nat)
    requires Reachable(h, o) && o in h.body && o' in h.body && AreaPoints(h, h.body[o], o')
    ensures Reachable(h, o')
  {
    var p :| Path(h, p) && p[|p| - 1] == o;
    var p' := p + [o'];
    forall i | 0 < i < |p'|
      ensures AreaPoints(h, h.body[p'[i - 1]], p'[i])
    {
      if i == |p| {
        assert p'[i - 1] == o;
      } else {
        assert AreaPoints(h, h.body[p[i - 1]], p[i]);
      }
    }
    assert Path(h, p');
    assert p'[|p'| - 1] == o';
  }

  /** A set that has every root and is closed under pointing has everything reachable. */
  lemma ClosedHasReachable(h: Heap, marks: set<nat>)
    requires forall o :: o in h.body && Root(h, o) ==> o in marks
    requires forall o, o' :: o in marks && o in h.body && AreaPoints(h, h.body[o], o') ==> o' in marks
    ensures forall o :: Reachable(h, o) ==> o in marks
  {
    forall o | Reachable(h, o)
      ensures o in marks
    {
      var p :| Path(h, p) && p[|p| - 1] == o;
      PathInClosed(h, marks, p, |p| - 1);
    }
  }

  lemma {:induction false} PathInClosed(h: Heap, marks: set<nat>, p: seq<nat>, i: nat)
    requires forall o :: o in h.body && Root(h, o) ==> o in marks
    requires forall o, o' :: o in marks && o in h.body && AreaPoints(h, h.body[o], o') ==> o' in marks
    requires Path(h, p) && i < |p|
    ensures p[i] in marks
  {
    if i == 0 {
      assert p[0] in h.body;
    } else {
      PathInClosed(h, marks, p, i - 1);
      assert AreaPoints(h, h.body[p[i - 1]], p[i]);
    }
  }
}
