/**
 GC_finalize of tool/gec/backend/c/boehm_gc/finalize.c without Java finalization: which
 disappearing links disappear, and which objects are enqueued for finalization.
 */
module Finalization {
  import opened HashChains
  import opened LinkTable

  /** `slots[o]` are the addresses in o that the marker looks at, `owner[a]` is the object containing
      the address a, and `word[a]` the object that the word at a points to, if any. */
  datatype Heap = Heap(slots: map<nat, seq<nat>>, owner: map<nat, nat>, word: map<nat, nat>)

  predicate GoodHeap(h: Heap) {
    forall a :: a in h.word ==> h.word[a] in h.slots
  }

  ghost predicate Edge(h: Heap, o: nat, p: nat) {
    o in h.slots && exists a :: a in h.slots[o] && a in h.word && h.word[a] == p
  }

  /** How marking from a finalizable object starts: from all its pointers, from those to other
      objects, or not at all. */
  datatype Order = Normal | IgnoreSelf | NoOrder

  datatype Finalizer = Finalizer(fn: nat, data: nat, order: Order)

  ghost predicate Starts(h: Heap, order: Order, o: nat, p: nat) {
    !order.NoOrder? && Edge(h, o, p) && (order.IgnoreSelf? ==> p != o)
  }

  ghost predicate Path(h: Heap, p: seq<nat>) {
    |p| > 0 && forall i: nat :: i + 1 < |p| ==> Edge(h, p[i], p[i + 1])
  }

  /** x is reached from the finalizable object o, by one or more pointers. */
  ghost predicate Kept(h: Heap, order: Order, o: nat, x: nat) {
    exists p :: Path(h, p) && Starts(h, order, o, p[0]) && p[|p| - 1] == x
  }

  ghost predicate Closed(h: Heap, marks: set<nat>) {
    forall o, p :: o in marks && Edge(h, o, p) ==> p in marks
  }

  /** x is marked once everything has been marked that the unmarked finalizable objects lead to. */
  ghost predicate Revived(h: Heap, marks: set<nat>, regs: map<nat, Finalizer>, x: nat) {
    x in marks || exists f :: f in regs && f !in marks && Kept(h, regs[f].order, f, x)
  }

  lemma KeptOn(h: Heap, order: Order, o: nat, x: nat, y: nat)
    requires Kept(h, order, o, x) && Edge(h, x, y)
    ensures Kept(h, order, o, y)
  {
    var p :| Path(h, p) && Starts(h, order, o, p[0]) && p[|p| - 1] == x;
    var p' := p + [y];
    assert Path(h, p') && p'[0] == p[0] && p'[|p'| - 1] == y;
  }

  lemma KeptFirst(h: Heap, order: Order, o: nat, x: nat)
    requires Starts(h, order, o, x)
    ensures Kept(h, order, o, x)
  {
    assert Path(h, [x]);
  }

  /** marks' and stack' result from marking and pushing what o points to, except `skip`. */
  ghost predicate Scanned(h: Heap, marks: set<nat>, stack: seq<nat>, o: nat, skip: set<nat>, marks': set<nat>,
                          stack': seq<nat>) {
    && marks <= marks' <= h.slots.Keys
    && (forall p :: p in marks' <==> p in marks || (Edge(h, o, p) && p !in skip))
    && (forall p :: p in stack' <==> p in stack || (p in marks' && p !in marks))
    && (marks' == marks ==> stack' == stack)
  }

  method Scan(h: Heap, marks: set<nat>, stack: seq<nat>, o: nat, skip: set<nat>) returns (marks': set<nat>,
              stack': seq<nat>)
    requires GoodHeap(h) && o in h.slots && marks <= h.slots.Keys
    ensures Scanned(h, marks, stack, o, skip, marks', stack')
  {
    marks', stack' := marks, stack;
    var n := 0;
    while n < |h.slots[o]|
      invariant n <= |h.slots[o]|
      invariant marks <= marks' <= h.slots.Keys
      invariant forall p :: p in marks' ==> p in marks || (Edge(h, o, p) && p !in skip)
      invariant forall m: nat :: m < n && h.slots[o][m] in h.word && h.word[h.slots[o][m]] !in skip
                                 ==> h.word[h.slots[o][m]] in marks'
      invariant forall p :: p in stack' <==> p in stack || (p in marks' && p !in marks)
      invariant marks' == marks ==> stack' == stack
    {
      var a := h.slots[o][n];
      if a in h.word && h.word[a] !in skip && h.word[a] !in marks' {
        assert Edge(h, o, h.word[a]);
        marks', stack' := marks' + {h.word[a]}, stack' + [h.word[a]];
      }
      n := n + 1;
    }
  }

  /** Marking from o with objects on the stack still to be scanned. */
  ghost predicate Draining(h: Heap, marks: set<nat>, o: nat, order: Order, marks': set<nat>, stack: seq<nat>) {
    && marks <= marks' <= h.slots.Keys
    && (forall p :: Starts(h, order, o, p) ==> p in marks')
    && (forall p :: p in stack ==> p in marks' && p !in marks)
    && (forall x, y :: x in marks' && Edge(h, x, y) ==> y in marks' || x in stack)
    && (forall x :: x in marks' ==> x in marks || Kept(h, order, o, x))
  }

  lemma DrainBegins(h: Heap, marks: set<nat>, o: nat, order: Order, marks': set<nat>, stack: seq<nat>)
    requires Closed(h, marks) && !order.NoOrder?
    requires Scanned(h, marks, [], o, if order.IgnoreSelf? then {o} else {}, marks', stack)
    ensures Draining(h, marks, o, order, marks', stack)
  {
    forall x | x in marks' && x !in marks ensures Kept(h, order, o, x) { KeptFirst(h, order, o, x); }
    hide Edge, Kept;
  }

  lemma DrainStep(h: Heap, marks: set<nat>, o: nat, order: Order, marks1: set<nat>, stack1: seq<nat>, top: nat,
                  marks2: set<nat>, stack2: seq<nat>)
    requires Draining(h, marks, o, order, marks1, stack1 + [top]) && Scanned(h, marks1, stack1, top, {}, marks2, stack2)
    ensures Draining(h, marks, o, order, marks2, stack2)
  {
    hide Edge, Kept, Starts;
    assert top in stack1 + [top];
    forall x | x in marks2 && x !in marks ensures Kept(h, order, o, x) {
      if x !in marks1 { KeptOn(h, order, o, top, x); }
    }
  }

  lemma FewerUnmarked(all: set<nat>, before: set<nat>, after: set<nat>)
    requires before <= after <= all && before != after
    ensures |all - after| < |all - before|
  {
    var x :| x in after && x !in before;
    assert all - after <= all - before - {x};
    SubsetSmaller(all - after, all - before - {x});
  }

  lemma {:induction false} SubsetSmaller(a: set<nat>, b: set<nat>)
    requires a <= b
    ensures |a| <= |b|
  {
    assert b == a + (b - a);
  }

  /** GC_MARK_FO, the mark stack not overflowing. */
  method MarkFo(h: Heap, marks: set<nat>, o: nat, order: Order) returns (marks': set<nat>)
    requires GoodHeap(h) && marks <= h.slots.Keys && o in h.slots && Closed(h, marks)
    ensures marks <= marks' <= h.slots.Keys && Closed(h, marks')
    ensures forall p :: Starts(h, order, o, p) ==> p in marks'
    ensures forall x :: x in marks' ==> x in marks || Kept(h, order, o, x)
  {
    hide Edge, Kept, Scanned;
    marks' := marks;
    if order.NoOrder? { return; }
    var stack;
    marks', stack := Scan(h, marks, [], o, if order.IgnoreSelf? then {o} else {});
    DrainBegins(h, marks, o, order, marks', stack);
    while stack != []
      invariant Draining(h, marks, o, order, marks', stack)
      decreases |h.slots.Keys - marks'|, |stack|
    {
      var top, rest, before := stack[|stack| - 1], stack[..|stack| - 1], marks';
      assert stack == rest + [top];
      marks', stack := Scan(h, before, rest, top, {});
      DrainStep(h, marks, o, order, before, rest, top, marks', stack);
      ScannedMore(h, before, rest, top, {}, marks', stack);
    }
  }

  lemma ScannedMore(h: Heap, marks: set<nat>, stack: seq<nat>, o: nat, skip: set<nat>, marks': set<nat>,
                    stack': seq<nat>)
    requires Scanned(h, marks, stack, o, skip, marks', stack')
    ensures stack' == stack || |h.slots.Keys - marks'| < |h.slots.Keys - marks|
    ensures |h.slots.Keys - marks'| <= |h.slots.Keys - marks|
  {
    if marks' != marks { FewerUnmarked(h.slots.Keys, marks, marks'); }
  }

  // ---------- walking a table

  /** Everything before position j of bucket i satisfies `ok`. */
  ghost predicate Before<V(!new)>(b: Buckets<V>, i: nat, j: nat, ok: Entry<V> -> bool) {
    && i <= |b| && (if i < |b| then j <= |b[i]| else j == 0)
    && (forall n: nat, e :: n < i && e in b[n] ==> ok(e))
    && (i < |b| ==> forall e :: e in b[i][..j] ==> ok(e))
  }

  lemma BeforeNext<V(!new)>(b: Buckets<V>, i: nat, j: nat, ok: Entry<V> -> bool)
    requires Before(b, i, j, ok) && i < |b| && j < |b[i]| && ok(b[i][j])
    ensures Before(b, i, j + 1, ok)
  {
    assert b[i][..j + 1] == b[i][..j] + [b[i][j]];
  }

  lemma BeforeBucket<V(!new)>(b: Buckets<V>, i: nat, ok: Entry<V> -> bool)
    requires i < |b| && Before(b, i, |b[i]|, ok)
    ensures Before(b, i + 1, 0, ok)
  {
    assert b[i][..|b[i]|] == b[i];
  }

  /** Taking out the entry at the position leaves what lies before it. */
  lemma BeforeRemoved<V(!new)>(b: Buckets<V>, i: nat, j: nat, ok: Entry<V> -> bool)
    requires Before(b, i, j, ok) && i < |b| && j < |b[i]|
    ensures Before(b[i := b[i][..j] + b[i][j + 1..]], i, j, ok)
  {
    var c := b[i][..j] + b[i][j + 1..];
    assert c[..j] == b[i][..j];
  }

  lemma BeforeAll<V(!new)>(hash: Hash, log: nat, b: Buckets<V>, ok: Entry<V> -> bool)
    requires Before(b, |b|, 0, ok) && Good(hash, log, b)
    ensures forall k :: k in Contents(b) ==> ok(Entry(k, Contents(b)[k]))
  {
    TableIsMap(hash, log, b);
    forall k | k in Contents(b) ensures ok(Entry(k, Contents(b)[k])) {
      assert Maps(Contents(b), Entry(k, Contents(b)[k]));
    }
  }

  // ---------- GC_make_disappearing_links_disappear

  /** The entries whose object is marked, or those whose link is not inside an unmarked object. */
  ghost function LiveLinks(h: Heap, marks: set<nat>, dangling: bool, m: map<nat, nat>): map<nat, nat> {
    map l | l in m && (if dangling then l in h.owner ==> h.owner[l] in marks else m[l] in marks) :: m[l]
  }

  predicate LinkLive(h: Heap, marks: set<nat>, dangling: bool, e: Entry<nat>) {
    if dangling then e.key in h.owner ==> h.owner[e.key] in marks else e.value in marks
  }

  /** m' is m without some entries that are not live; their links have been cleared. */
  ghost predicate Thinned(h: Heap, marks: set<nat>, dangling: bool, m: map<nat, nat>, m': map<nat, nat>, h': Heap) {
    && m'.Keys <= m.Keys
    && (forall l :: l in m' ==> m'[l] == m[l])
    && (forall l :: l in m && l !in m' ==> !LinkLive(h, marks, dangling, Entry(l, m[l])))
    && h' == if dangling then h else h.(word := h.word - (m.Keys - m'.Keys))
  }

  lemma ThinnedOne(h: Heap, marks: set<nat>, dangling: bool, m: map<nat, nat>, m': map<nat, nat>, h': Heap,
                   e: Entry<nat>)
    requires Thinned(h, marks, dangling, m, m', h') && Maps(m', e) && !LinkLive(h, marks, dangling, e)
    ensures Thinned(h, marks, dangling, m, m' - {e.key}, if dangling then h' else h'.(word := h'.word - {e.key}))
  {
    assert m.Keys - (m' - {e.key}).Keys == (m.Keys - m'.Keys) + {e.key};
    assert h.word - (m.Keys - m'.Keys) - {e.key} == h.word - ((m.Keys - m'.Keys) + {e.key});
  }

  lemma ThinnedAll(h: Heap, marks: set<nat>, dangling: bool, m: map<nat, nat>, m': map<nat, nat>, h': Heap)
    requires Thinned(h, marks, dangling, m, m', h')
    requires forall l :: l in m' ==> LinkLive(h, marks, dangling, Entry(l, m'[l]))
    ensures m' == LiveLinks(h, marks, dangling, m)
  {
  }

  method MakeLinksDisappear(table: Table<nat>, h: Heap, marks: set<nat>, dangling: bool) returns (h': Heap)
    requires table.Valid()
    modifies table
    ensures table.Valid() && table.Map() == LiveLinks(h, marks, dangling, old(table.Map()))
    ensures h' == if dangling then h else h.(word := h.word - (old(table.Map()).Keys - table.Map().Keys))
  {
    hide Good, GoodHash, Before, LinkLive;
    h' := h;
    ghost var m := table.Map();
    ghost var ok := (e: Entry<nat>) => LinkLive(h, marks, dangling, e);
    var i := 0;
    BeforeFirst(table.buckets, ok);
    while i < |table.buckets|
      invariant i <= |table.buckets|
      invariant table.Valid() && Before(table.buckets, i, 0, ok) && Thinned(h, marks, dangling, m, table.Map(), h')
      decreases |table.buckets| - i
    {
      ghost var n := |table.buckets|;
      var j := 0;
      while j < |table.buckets[i]|
        invariant i < |table.buckets| == n && j <= |table.buckets[i]|
        invariant table.Valid() && Before(table.buckets, i, j, ok) && Thinned(h, marks, dangling, m, table.Map(), h')
        decreases |table.buckets[i]| - j
      {
        var e := table.buckets[i][j];
        if LinkLive(h, marks, dangling, e) {
          BeforeNext(table.buckets, i, j, ok);
          j := j + 1;
        } else {
          ghost var m' := table.Map();
          BeforeRemoved(table.buckets, i, j, ok);
          table.RemoveAt(i, j);
          ThinnedOne(h, marks, dangling, m, m', h', e);
          if !dangling { h' := h'.(word := h'.word - {e.key}); }
        }
      }
      BeforeBucket(table.buckets, i, ok);
      i := i + 1;
    }
    BeforeAll(table.hash, table.log, table.buckets, ok);
    ThinnedAll(h, marks, dangling, m, table.Map(), h');
  }

  lemma BeforeFirst<V(!new)>(b: Buckets<V>, ok: Entry<V> -> bool)
    ensures Before(b, 0, 0, ok)
  {
  }

  // ---------- marking from the finalizable objects

  lemma BeforeWeaker<V(!new)>(b: Buckets<V>, i: nat, j: nat, ok: Entry<V> -> bool, ok': Entry<V> -> bool)
    requires Before(b, i, j, ok) && forall e :: ok(e) ==> ok'(e)
    ensures Before(b, i, j, ok')
  {
  }

  /** What the finalizable object of the entry leads to is marked, unless it was marked to begin with. */
  ghost predicate LedOn(h: Heap, marks: set<nat>, now: set<nat>, e: Entry<Finalizer>) {
    e.key in marks || forall p :: Starts(h, e.value.order, e.key, p) ==> p in now
  }

  lemma {:induction false} PathInClosed(h: Heap, marks: set<nat>, p: seq<nat>)
    requires Closed(h, marks) && Path(h, p) && p[0] in marks
    ensures p[|p| - 1] in marks
    decreases |p|
  {
    if |p| > 1 {
      var q := p[..|p| - 1];
      PathInClosed(h, marks, q);
      assert Edge(h, p[|p| - 2], p[|p| - 1]);
    }
  }

  lemma KeptInClosed(h: Heap, marks: set<nat>, order: Order, o: nat, x: nat)
    requires Closed(h, marks) && Kept(h, order, o, x) && forall p :: Starts(h, order, o, p) ==> p in marks
    ensures x in marks
  {
    var p :| Path(h, p) && Starts(h, order, o, p[0]) && p[|p| - 1] == x;
    PathInClosed(h, marks, p);
  }

  /** Part way through the finalizable objects. */
  ghost predicate Reviving(h: Heap, marks: set<nat>, regs: map<nat, Finalizer>, now: set<nat>) {
    marks <= now <= h.slots.Keys && Closed(h, now) && forall x :: x in now ==> Revived(h, marks, regs, x)
  }

  lemma RevivingOne(h: Heap, marks: set<nat>, regs: map<nat, Finalizer>, now: set<nat>, now': set<nat>,
                    e: Entry<Finalizer>)
    requires Reviving(h, marks, regs, now) && Maps(regs, e) && now <= now' <= h.slots.Keys && Closed(h, now')
    requires e.key !in now && forall x :: x in now' ==> x in now || Kept(h, e.value.order, e.key, x)
    ensures Reviving(h, marks, regs, now')
  {
  }

  lemma RevivedAll(h: Heap, marks: set<nat>, regs: map<nat, Finalizer>, now: set<nat>)
    requires Reviving(h, marks, regs, now) && forall k :: k in regs ==> LedOn(h, marks, now, Entry(k, regs[k]))
    ensures forall x :: x in now <==> Revived(h, marks, regs, x)
  {
    forall x | Revived(h, marks, regs, x) && x !in marks ensures x in now {
      var f :| f in regs && f !in marks && Kept(h, regs[f].order, f, x);
      assert LedOn(h, marks, now, Entry(f, regs[f]));
      KeptInClosed(h, now, regs[f].order, f, x);
    }
  }

  /** An object marked along the way has all it leads to marked. */
  lemma MarkedLedOn(h: Heap, marks: set<nat>, now: set<nat>, e: Entry<Finalizer>)
    requires Closed(h, now) && e.key in now
    ensures LedOn(h, marks, now, e)
  {
  }

  /** The first pass of GC_finalize over the finalizers. */
  method MarkFromFinalizable(table: Table<Finalizer>, h: Heap, marks: set<nat>) returns (now: set<nat>)
    requires table.Valid() && GoodHeap(h) && marks <= h.slots.Keys && table.Map().Keys <= h.slots.Keys
    requires Closed(h, marks)
    ensures marks <= now <= h.slots.Keys && Closed(h, now)
    ensures forall x :: x in now <==> Revived(h, marks, table.Map(), x)
  {
    hide Good, GoodHash, Before, Starts, Kept, Closed, GoodHeap;
    now := marks;
    ghost var m := table.Map();
    BeforeFirst(table.buckets, e => LedOn(h, marks, now, e));
    var i := 0;
    while i < |table.buckets|
      invariant i <= |table.buckets|
      invariant Reviving(h, marks, m, now) && Before(table.buckets, i, 0, e => LedOn(h, marks, now, e))
    {
      var j := 0;
      while j < |table.buckets[i]|
        invariant i < |table.buckets| && j <= |table.buckets[i]|
        invariant Reviving(h, marks, m, now) && Before(table.buckets, i, j, e => LedOn(h, marks, now, e))
      {
        var e, was := table.buckets[i][j], now;
        InTable(table.hash, table.log, table.buckets, i, j);
        if e.key !in now {
          now := MarkFo(h, was, e.key, e.value.order);
          RevivingOne(h, marks, m, was, now, e);
        } else {
          MarkedLedOn(h, marks, now, e);
        }
        BeforeWeaker(table.buckets, i, j, x => LedOn(h, marks, was, x), x => LedOn(h, marks, now, x));
        BeforeNext(table.buckets, i, j, x => LedOn(h, marks, now, x));
        j := j + 1;
      }
      BeforeBucket(table.buckets, i, e => LedOn(h, marks, now, e));
      i := i + 1;
    }
    BeforeAll(table.hash, table.log, table.buckets, e => LedOn(h, marks, now, e));
    RevivedAll(h, marks, m, now);
  }

  // ---------- enqueueing

  /** The finalizers of marked objects. */
  ghost function Staying(marks: set<nat>, m: map<nat, Finalizer>): map<nat, Finalizer> {
    map o | o in m && o in marks :: m[o]
  }

  /** The queue has the entries of these objects, each once. */
  ghost predicate QueueOf(q: seq<Entry<Finalizer>>, m: map<nat, Finalizer>, objs: set<nat>) {
    Distinct(q) && forall e :: e in q <==> e.key in objs && Maps(m, e)
  }

  /** Part way: the objects of `queued` have been taken off the table, queued and marked. */
  ghost predicate Enqueueing(marks: set<nat>, m: map<nat, Finalizer>, m': map<nat, Finalizer>, now: set<nat>,
                             queued: seq<Entry<Finalizer>>) {
    && m'.Keys <= m.Keys
    && (forall o :: o in m' ==> m'[o] == m[o])
    && (forall o :: o in m && o !in m' ==> o !in marks)
    && now == marks + (m.Keys - m'.Keys)
    && QueueOf(queued, m, m.Keys - m'.Keys)
  }

  lemma QueueMore(q: seq<Entry<Finalizer>>, m: map<nat, Finalizer>, objs: set<nat>, e: Entry<Finalizer>)
    requires QueueOf(q, m, objs) && e.key !in objs && Maps(m, e)
    ensures QueueOf([e] + q, m, objs + {e.key})
  {
  }

  lemma EnqueueOne(marks: set<nat>, m: map<nat, Finalizer>, m': map<nat, Finalizer>, now: set<nat>,
                   queued: seq<Entry<Finalizer>>, e: Entry<Finalizer>)
    requires Enqueueing(marks, m, m', now, queued) && Maps(m', e) && e.key !in now
    ensures Enqueueing(marks, m, m' - {e.key}, now + {e.key}, [e] + queued)
  {
    hide QueueOf;
    QueueMore(queued, m, m.Keys - m'.Keys, e);
    assert m.Keys - (m' - {e.key}).Keys == (m.Keys - m'.Keys) + {e.key};
    assert forall o :: o in m && o !in m' - {e.key} ==> o !in m' || o == e.key;
  }

  lemma EnqueuedAll(marks: set<nat>, m: map<nat, Finalizer>, m': map<nat, Finalizer>, now: set<nat>,
                    queued: seq<Entry<Finalizer>>)
    requires Enqueueing(marks, m, m', now, queued) && forall o :: o in m' ==> o in marks
    ensures m' == Staying(marks, m) && now == marks + m.Keys && QueueOf(queued, m, m.Keys - marks)
  {
    hide QueueOf;
    assert m.Keys - m'.Keys == m.Keys - marks;
  }

  /** The second pass: unlinks the entries of unmarked objects, marks the objects and pushes the entries
      on the queue. */
  method Enqueue(table: Table<Finalizer>, marks: set<nat>, queue: seq<Entry<Finalizer>>)
    returns (now: set<nat>, queue': seq<Entry<Finalizer>>, ghost queued: seq<Entry<Finalizer>>)
    requires table.Valid()
    modifies table
    ensures table.Valid() && table.Map() == Staying(marks, old(table.Map()))
    ensures now == marks + old(table.Map()).Keys
    ensures queue' == queued + queue && QueueOf(queued, old(table.Map()), old(table.Map()).Keys - marks)
  {
    hide Good, GoodHash, Before, QueueOf, Enqueueing;
    now, queue', queued := marks, queue, [];
    ghost var m := table.Map();
    ghost var ok := (e: Entry<Finalizer>) => e.key in marks;
    var i := 0;
    BeforeFirst(table.buckets, ok);
    NothingQueued(marks, m);
    while i < |table.buckets|
      invariant i <= |table.buckets|
      invariant table.Valid() && Before(table.buckets, i, 0, ok)
      invariant Enqueueing(marks, m, table.Map(), now, queued) && queue' == queued + queue
      decreases |table.buckets| - i
    {
      ghost var n := |table.buckets|;
      var j := 0;
      while j < |table.buckets[i]|
        invariant i < |table.buckets| == n && j <= |table.buckets[i]|
        invariant table.Valid() && Before(table.buckets, i, j, ok)
        invariant Enqueueing(marks, m, table.Map(), now, queued) && queue' == queued + queue
        decreases |table.buckets[i]| - j
      {
        var e := table.buckets[i][j];
        ghost var m' := table.Map();
        InTable(table.hash, table.log, table.buckets, i, j);
        if e.key in now {
          MarkedBefore(marks, m, m', now, queued, e);
          BeforeNext(table.buckets, i, j, ok);
          j := j + 1;
        } else {
          EnqueueOne(marks, m, m', now, queued, e);
          BeforeRemoved(table.buckets, i, j, ok);
          table.RemoveAt(i, j);
          now, queue', queued := now + {e.key}, [e] + queue', [e] + queued;
        }
      }
      BeforeBucket(table.buckets, i, ok);
      i := i + 1;
    }
    BeforeAll(table.hash, table.log, table.buckets, ok);
    EnqueuedAll(marks, m, table.Map(), now, queued);
  }

  lemma NothingQueued(marks: set<nat>, m: map<nat, Finalizer>)
    ensures Enqueueing(marks, m, m, marks, [])
  {
    assert m.Keys - m.Keys == {};
  }

  /** An object still in the table was not marked by queueing it. */
  lemma MarkedBefore(marks: set<nat>, m: map<nat, Finalizer>, m': map<nat, Finalizer>, now: set<nat>,
                     queued: seq<Entry<Finalizer>>, e: Entry<Finalizer>)
    requires Enqueueing(marks, m, m', now, queued) && Maps(m', e) && e.key in now
    ensures e.key in marks
  {
  }

  lemma InTable<V(!new)>(hash: Hash, log: nat, b: Buckets<V>, i: nat, j: nat)
    requires Good(hash, log, b) && i < |b| && j < |b[i]|
    ensures Maps(Contents(b), b[i][j])
  {
    BucketIs(hash, log, b, i);
    assert b[i][j] in b[i];
  }

  // ---------- GC_finalize

  ghost function Cleared(h: Heap, m: map<nat, nat>, m': map<nat, nat>): Heap {
    h.(word := h.word - (m.Keys - m'.Keys))
  }

  /** Clearing links takes no pointer's target away that was marked, and adds none. */
  lemma ClearedClosed(h: Heap, marks: set<nat>, m: map<nat, nat>, m': map<nat, nat>)
    requires Closed(h, marks) && GoodHeap(h)
    ensures Closed(Cleared(h, m, m'), marks) && GoodHeap(Cleared(h, m, m'))
  {
    var h' := Cleared(h, m, m');
    forall o, p | o in marks && Edge(h', o, p) ensures p in marks {
      assert Edge(h, o, p);
    }
  }

  /** The globals that GC_finalize works on. */
  class Roots {
    const short: Table<nat>
    const long: Table<nat>
    const finalizers: Table<Finalizer>
    var queue: seq<Entry<Finalizer>>
    var heap: Heap
    var marks: set<nat>

    ghost predicate Valid()
      reads this, short, long, finalizers
    {
      && short.Valid() && long.Valid() && finalizers.Valid() && short != long
      && GoodHeap(heap) && marks <= heap.slots.Keys && finalizers.Map().Keys <= heap.slots.Keys
    }

    constructor (hash: Hash, heap: Heap)
      requires GoodHash(hash) && GoodHeap(heap)
      ensures Valid() && marks == {} && queue == [] && this.heap == heap
    {
      short := new Table<nat>(hash);
      long := new Table<nat>(hash);
      finalizers := new Table<Finalizer>(hash);
      queue, marks, this.heap := [], {}, heap;
    }

    /** GC_finalize.  With D, L and F the short links, the long links and the finalizers before, and h1 the
        heap once the short links are cleared: exactly the finalizers are queued whose object is neither
        marked nor led to by an unmarked finalizable object; short links are judged by the marks before,
        long links by the marks after. */
    method Finalize() returns (ghost revived: set<nat>, ghost queued: seq<Entry<Finalizer>>)
      requires Valid() && Closed(heap, marks)
      modifies this, short, long, finalizers
      ensures Valid()
      ensures var regs, h1 := old(finalizers.Map()), ShortCleared(old(heap), old(marks), old(short.Map()));
              && (forall x :: x in revived <==> Revived(h1, old(marks), regs, x))
              && finalizers.Map() == Staying(revived, regs)
              && queue == queued + old(queue) && QueueOf(queued, regs, regs.Keys - revived)
              && marks == revived + regs.Keys
      ensures short.Map() == LiveLinks(heap, marks, true, LiveLinks(heap, old(marks), false, old(short.Map())))
      ensures long.Map() == LiveLinks(heap, marks, true, LiveLinks(heap, marks, false, old(long.Map())))
      ensures var h1 := ShortCleared(old(heap), old(marks), old(short.Map()));
              heap == Cleared(h1, old(long.Map()), LiveLinks(h1, marks, false, old(long.Map())))
    {
      hide Good, GoodHash, QueueOf, LiveLinks, Closed, GoodHeap, Revived, Contents, Size, Staying;
      var h1 := MakeLinksDisappear(short, heap, marks, false);
      ClearedClosed(heap, marks, old(short.Map()), short.Map());
      var now, queue';
      now := MarkFromFinalizable(finalizers, h1, marks);
      revived := now;
      now, queue', queued := Enqueue(finalizers, now, queue);
      StayingWithin(revived, old(finalizers.Map()));
      var h2 := MakeLinksDisappear(short, h1, now, true);
      var h3 := MakeLinksDisappear(long, h1, now, false);
      ClearedGood(h1, old(long.Map()), long.Map());
      LinksOfOwner(heap, h3, marks, false, old(short.Map()));
      LinksOfOwner(h1, h3, now, true, LiveLinks(h3, marks, false, old(short.Map())));
      LinksOfOwner(h1, h3, now, false, old(long.Map()));
      var h4 := MakeLinksDisappear(long, h3, now, true);
      marks, queue, heap := now, queue', h3;
    }
  }

  /** The heap once the short links to unmarked objects are cleared. */
  ghost function ShortCleared(h: Heap, marks: set<nat>, m: map<nat, nat>): Heap {
    Cleared(h, m, LiveLinks(h, marks, false, m))
  }

  lemma StayingWithin(marks: set<nat>, m: map<nat, Finalizer>)
    ensures Staying(marks, m).Keys <= m.Keys
  {
  }

  lemma ClearedGood(h: Heap, m: map<nat, nat>, m': map<nat, nat>)
    requires GoodHeap(h)
    ensures GoodHeap(Cleared(h, m, m'))
  {
  }

  lemma LinksOfOwner(h: Heap, h': Heap, marks: set<nat>, dangling: bool, m: map<nat, nat>)
    requires h.owner == h'.owner
    ensures LiveLinks(h, marks, dangling, m) == LiveLinks(h', marks, dangling, m)
  {
  }

  // ---------- what GC_finalize achieves, in terms of its contract

  /** The marks stay closed under pointing when they are extended. */
  lemma RevivedClosed(h: Heap, marks: set<nat>, regs: map<nat, Finalizer>, revived: set<nat>)
    requires Closed(h, marks) && forall x :: x in revived <==> Revived(h, marks, regs, x)
    ensures Closed(h, revived)
  {
    forall o, p | o in revived && Edge(h, o, p) ensures p in revived {
      if o !in marks {
        var f :| f in regs && f !in marks && Kept(h, regs[f].order, f, o);
        KeptOn(h, regs[f].order, f, o, p);
      }
      assert Revived(h, marks, regs, p);
    }
  }

  /** No object is queued that a registered object leads to, by one or more pointers: in whatever order
      finalizers run, one never sees an object finalized before it, unless it asked for no order. */
  lemma QueuedNotLedTo(h: Heap, marks: set<nat>, regs: map<nat, Finalizer>, revived: set<nat>,
                       queued: seq<Entry<Finalizer>>, f: nat, e: Entry<Finalizer>)
    requires Closed(h, marks) && forall x :: x in revived <==> Revived(h, marks, regs, x)
    requires QueueOf(queued, regs, regs.Keys - revived) && e in queued
    requires f in regs && !regs[f].order.NoOrder?
    ensures !Kept(h, regs[f].order, f, e.key)
  {
    if Kept(h, regs[f].order, f, e.key) {
      if f in marks {
        var p :| Path(h, p) && Starts(h, regs[f].order, f, p[0]) && p[|p| - 1] == e.key;
        PathInClosed(h, marks, p);
      }
      assert Revived(h, marks, regs, e.key);
      assert false;
    }
  }

  /** An object is queued exactly if it has a finalizer, was not marked, and nothing unmarked with a
      finalizer leads to it. */
  lemma QueuedExactly(h: Heap, marks: set<nat>, regs: map<nat, Finalizer>, revived: set<nat>,
                      queued: seq<Entry<Finalizer>>, o: nat)
    requires forall x :: x in revived <==> Revived(h, marks, regs, x)
    requires QueueOf(queued, regs, regs.Keys - revived)
    ensures (exists e :: e in queued && e.key == o)
        <==> o in regs && o !in marks && forall f :: f in regs && f !in marks ==> !Kept(h, regs[f].order, f, o)
  {
    if o in regs && o !in revived { assert Entry(o, regs[o]) in queued; }
  }

  /** The order of buckets and chains does not matter: tables with the same finalizers queue the same
      entries, each once. */
  lemma SameQueue(regs: map<nat, Finalizer>, objs: set<nat>, q: seq<Entry<Finalizer>>, q': seq<Entry<Finalizer>>)
    requires QueueOf(q, regs, objs) && QueueOf(q', regs, objs)
    ensures multiset(q) == multiset(q')
  {
    forall e ensures multiset(q)[e] == multiset(q')[e] {
      DistinctOnce(q, e);
      DistinctOnce(q', e);
    }
  }

  lemma {:induction false} DistinctOnce<V>(q: Chain<V>, e: Entry<V>)
    requires Distinct(q)
    ensures multiset(q)[e] == if e in q then 1 else 0
  {
    if q != [] {
      assert q == [q[0]] + q[1..];
      DistinctOnce(q[1..], e);
      if e in q[1..] { NotTwice(q, e); }
    }
  }

  /** Finalizers are conserved: each is either still in the table or queued. */
  lemma FinalizersConserved(regs: map<nat, Finalizer>, revived: set<nat>, queued: seq<Entry<Finalizer>>)
    requires QueueOf(queued, regs, regs.Keys - revived)
    ensures Staying(revived, regs) + ChainMap(queued) == regs
    ensures |Staying(revived, regs)| + |queued| == |regs|
  {
    hide QueueOf, ChainMap;
    QueueMap(regs, regs.Keys - revived, queued);
    var stay, gone := Staying(revived, regs), ChainMap(queued);
    Joined(regs, stay, gone);
  }

  lemma Joined(m: map<nat, Finalizer>, m1: map<nat, Finalizer>, m2: map<nat, Finalizer>)
    requires forall k :: k in m <==> k in m1 || k in m2
    requires forall k :: !(k in m1 && k in m2)
    requires forall k :: k in m1 ==> m1[k] == m[k]
    requires forall k :: k in m2 ==> m2[k] == m[k]
    ensures m1 + m2 == m && |m1| + |m2| == |m|
  {
    assert m.Keys == m1.Keys + m2.Keys && m1.Keys !! m2.Keys;
    assert |m.Keys| == |m1.Keys| + |m2.Keys|;
  }

  lemma QueueMap(regs: map<nat, Finalizer>, objs: set<nat>, queued: seq<Entry<Finalizer>>)
    requires QueueOf(queued, regs, objs) && objs <= regs.Keys
    ensures ChainMap(queued).Keys == objs && |ChainMap(queued)| == |queued|
    ensures forall o :: o in objs ==> ChainMap(queued)[o] == regs[o]
  {
    ChainIsMap(queued);
    var gone := ChainMap(queued);
    forall o | o in gone ensures o in objs && gone[o] == regs[o] { assert Maps(gone, Entry(o, gone[o])); }
    forall o | o in objs ensures o in gone { assert Maps(regs, Entry(o, regs[o])) && Maps(gone, Entry(o, regs[o])); }
  }

  /** Reclaiming the unmarked objects leaves no dangling pointer in a marked one exactly if the queued
      objects that asked for no order point to marked objects only. */
  lemma ReclaimSafe(h1: Heap, h: Heap, marks: set<nat>, regs: map<nat, Finalizer>, revived: set<nat>,
                    queued: seq<Entry<Finalizer>>)
    requires Closed(h1, marks) && forall x :: x in revived <==> Revived(h1, marks, regs, x)
    requires QueueOf(queued, regs, regs.Keys - revived)
    requires h.slots == h1.slots && h.word.Keys <= h1.word.Keys && forall a :: a in h.word ==> h.word[a] == h1.word[a]
    ensures Closed(h, revived + regs.Keys)
       <==> forall e, p :: e in queued && e.value.order.NoOrder? && Edge(h, e.key, p) ==> p in revived + regs.Keys
  {
    RevivedClosed(h1, marks, regs, revived);
    var now := revived + regs.Keys;
    if forall e, p :: e in queued && e.value.order.NoOrder? && Edge(h, e.key, p) ==> p in now {
      forall o, p | o in now && Edge(h, o, p) ensures p in now {
        assert Edge(h1, o, p);
        if o !in revived { QueuedPoints(h1, marks, regs, revived, queued, o, p); }
      }
    }
  }

  /** Where a queued object that did not ask for no order points. */
  lemma QueuedPoints(h: Heap, marks: set<nat>, regs: map<nat, Finalizer>, revived: set<nat>,
                     queued: seq<Entry<Finalizer>>, o: nat, p: nat)
    requires forall x :: x in revived <==> Revived(h, marks, regs, x)
    requires QueueOf(queued, regs, regs.Keys - revived) && o in regs && o !in revived && Edge(h, o, p)
    ensures Entry(o, regs[o]) in queued && (regs[o].order.NoOrder? || p == o || p in revived)
  {
    assert Maps(regs, Entry(o, regs[o]));
    assert !Revived(h, marks, regs, o);
    if Starts(h, regs[o].order, o, p) {
      KeptFirst(h, regs[o].order, o, p);
      assert Revived(h, marks, regs, p);
    }
  }

  /** After GC_finalize every link still registered belongs to a marked object, or to none, and refers to
      a marked object. */
  lemma SurvivingLinks(h: Heap, before: set<nat>, marks: set<nat>, m: map<nat, nat>, l: nat)
    requires before <= marks && l in LiveLinks(h, marks, true, LiveLinks(h, before, false, m))
    ensures m[l] in marks && (l in h.owner ==> h.owner[l] in marks)
  {
  }
}
