/**
 The serial marker of tool/gec/backend/c/boehm_gc/mark.c: a bounded mark stack that drops
 entries when it overflows, and the state machine that recovers by rescanning the heap.
 */
module Marker {
  import opened MarkHeap
  import opened MarkStack
  import opened ParallelPhase
  import PM = ParallelMark
  import opened Arithmetic

  /** Ranges of at least SPLIT_RANGE_WORDS (128) words are scanned one word less at a time. */
  function SplitUnits(k: nat): nat { 128 * k }

  /** Ranges above SHARE_BYTES (2048, that is 256 words) are halved when markers may share them. */
  function ShareUnits(k: nat): nat { 256 * k }

  datatype MarkState = None | PushUncollectable | RootsPushed | PartiallyInvalid | Invalid

  /** What one call of the marker reports: more to do, finished marking, or the "Unexpected mark
      stack overflow" abort of pushing too many root areas.  Running means that the call has not
      returned: its parallel phase is not over. */
  datatype Outcome = More | Finished | Abort | Running

  // ---------- a weight that one scanned entry always lowers

  function EntryWeight(k: nat, len: nat): nat {
    if len >= 16 * k then len - 8 * k else len
  }

  function Weight(k: nat, stack: seq<Range>): nat {
    if |stack| == 0 then 0
    else Weight(k, stack[..|stack| - 1]) + EntryWeight(k, stack[|stack| - 1].len)
  }

  lemma WeightPush(k: nat, stack: seq<Range>, r: Range)
    ensures Weight(k, stack + [r]) == Weight(k, stack) + EntryWeight(k, r.len)
  {
    assert (stack + [r])[..|stack|] == stack;
  }

  /** The unit count of the first half when a range is shared, a whole number of words. */
  function HalfUnits(k: nat, len: nat): (n: nat)
    requires k > 0 && len > ShareUnits(k)
    ensures 128 * k <= n && n + 128 * k <= len
  {
    HalfBounds(k, len);
    len / (2 * k) * k
  }

  lemma HalfBounds(k: nat, len: nat)
    requires k > 0 && len > ShareUnits(k)
    ensures 128 * k <= len / (2 * k) * k && len / (2 * k) * k + 128 * k <= len
  {
    var m := len / (2 * k);
    DivLower(len, 2 * k, 128);
    MulMonotone(128, m, k);
    MulDivAtMost(len, k);
  }

  lemma MulDivAtMost(a: nat, k: nat)
    requires k > 0
    ensures 2 * (a / (2 * k) * k) <= a
  {
    DivDefinition(a, 2 * k);
  }

  /** The two overlapping halves have exactly the words of the range, and weigh no more. */
  lemma HalvesCover(h: Heap, r: Range, half: nat)
    requires 0 < h.wordUnits && 128 * h.wordUnits <= half && half + 128 * h.wordUnits <= r.len
    ensures var piece, rest := Range(r.start, half + h.wordUnits), Range(r.start + half, r.len - half);
            && (forall q :: Inside(h, r, q) <==> Inside(h, piece, q) || Inside(h, rest, q))
            && EntryWeight(h.wordUnits, piece.len) + EntryWeight(h.wordUnits, rest.len)
               <= EntryWeight(h.wordUnits, r.len)
  {
  }

  // ---------- what a run of words points to

  ghost function Targets(h: Heap, lo: int, hi: int): set<nat>
    decreases hi - lo
  {
    if hi < lo then {}
    else Targets(h, lo, hi - 1) + (if hi in h.ptr then {h.ptr[hi]} else {})
  }

  /** Targets are the objects pointed to from lo..hi and no others. */
  lemma {:induction false} TargetsMembers(h: Heap, lo: int, hi: int)
    ensures forall q :: lo <= q <= hi && q in h.ptr ==> h.ptr[q] in Targets(h, lo, hi)
    ensures forall o :: o in Targets(h, lo, hi) ==> exists q :: lo <= q <= hi && q in h.ptr && h.ptr[q] == o
    decreases hi - lo
  {
    if lo <= hi {
      TargetsMembers(h, lo, hi - 1);
    }
  }

  lemma {:induction false} TargetsClip(h: Heap, lo: int, mid: int, hi: int)
    requires mid <= hi && forall q :: mid < q <= hi ==> q !in h.ptr
    ensures Targets(h, lo, hi) == Targets(h, lo, mid)
    decreases hi - mid
  {
    if mid < hi {
      TargetsClip(h, lo, mid, hi - 1);
    }
  }

  /** Replacing an entry by its unscanned rest keeps the promises once the scanned words
      have been considered. */
  lemma ScannedKept(h: Heap, m0: set<nat>, s0: seq<Range>, s1: seq<Range>, m: set<nat>, s: seq<Range>, lo: int, hi: int)
    requires forall q :: OnStack(h, s0, q) ==> OnStack(h, s1, q) || lo <= q <= hi
    requires Kept(h, m0, s1, m, s)
    requires m == m0 + Targets(h, lo, hi)
    ensures Kept(h, m0, s0, m, s)
  {
    TargetsMembers(h, lo, hi);
    forall q | At(h, m0, s0, q)
      ensures At(h, m, s, q)
    {
      if q in h.ptr && !(lo <= q <= hi) {
        assert At(h, m0, s1, q);
      }
    }
  }

  /** The units from the first to past the last of the words that start at lo..hi. */
  function Extent(k: nat, lo: int, hi: int): nat {
    if lo <= hi then hi + k - lo else 0
  }

  function Spent(k: nat, scans: seq<(int, int)>): nat {
    if scans == [] then 0
    else Spent(k, scans[..|scans| - 1]) + Extent(k, scans[|scans| - 1].0, scans[|scans| - 1].1)
  }

  ghost function AllTargets(h: Heap, scans: seq<(int, int)>): set<nat> {
    if scans == [] then {}
    else AllTargets(h, scans[..|scans| - 1]) + Targets(h, scans[|scans| - 1].0, scans[|scans| - 1].1)
  }

  /** What the scans so far have marked and spent; each was begun with credit left. */
  ghost predicate Scanned(h: Heap, m0: set<nat>, m: set<nat>, pageUnits: nat, credit: int, scans: seq<(int, int)>) {
    && m == m0 + AllTargets(h, scans) && credit == pageUnits - Spent(h.wordUnits, scans)
    && (|scans| > 0 ==> Spent(h.wordUnits, scans[..|scans| - 1]) <= pageUnits)
  }

  lemma ScannedNone(h: Heap, m: set<nat>, pageUnits: nat)
    ensures Scanned(h, m, m, pageUnits, pageUnits, [])
  {
  }

  lemma ScannedMore(h: Heap, m0: set<nat>, m: set<nat>, pageUnits: nat, credit: int, scans: seq<(int, int)>, lo: int,
                    hi: int)
    requires Scanned(h, m0, m, pageUnits, credit, scans) && credit >= 0
    ensures Scanned(h, m0, m + Targets(h, lo, hi), pageUnits, credit - Extent(h.wordUnits, lo, hi), scans + [(lo, hi)])
  {
    assert (scans + [(lo, hi)])[..|scans|] == scans;
  }

  class Marker {
    const heap: Heap
    const initialSize: nat       // INITIAL_MARK_STACK_SIZE, in entries
    const pageUnits: nat         // HBLKSIZE, the scanning credit of one call
    const parallel: bool         // GC_parallel (ranges may be halved for sharing)
    const markAlone: bool        // GC_parallel_mark_disabled
    const localSize: nat         // LOCAL_MARK_STACK_SIZE, in entries
    const helpers: set<nat>      // the markers of parallel phases, 0 being the collecting thread

    var state: MarkState
    var scanPtr: nat             // 0 is NULL; k is the address just past the kth allocated block
    var marks: set<nat>
    var stack: seq<Range>        // the entries up to GC_mark_stack_top
    var size: nat                // GC_mark_stack_size
    var tooSmall: bool           // GC_mark_stack_too_small
    var objectsAreMarked: bool

    /** What holds in every mark state. */
    ghost predicate Basic()
      reads this
    {
      && Good(heap)
      && 8 <= initialSize <= size && 0 in helpers && 6 <= localSize
      && (forall b :: 0 <= b < |heap.blocks| ==> |heap.blocks[b].objs| <= initialSize / 2)
      && |stack| <= size
      && scanPtr <= |heap.blocks|
      && heap.premarked <= marks
      && Sound(heap, marks, stack)
    }

    constructor (heap: Heap, initialSize: nat, pageUnits: nat, parallel: bool, markAlone: bool, localSize: nat,
                 helpers: set<nat>)
      requires Good(heap) && 8 <= initialSize && 0 in helpers && 6 <= localSize
      requires forall b :: 0 <= b < |heap.blocks| ==> |heap.blocks[b].objs| <= initialSize / 2
      ensures Basic() && Cleared()
      ensures this.heap == heap && this.initialSize == initialSize && size == initialSize && !tooSmall
    {
      this.heap, this.initialSize, this.pageUnits, this.parallel := heap, initialSize, pageUnits, parallel;
      this.markAlone, this.localSize, this.helpers := markAlone, localSize, helpers;
      state, scanPtr, marks, stack := Invalid, 0, heap.premarked, [];
      size, tooSmall, objectsAreMarked := initialSize, false, false;
      new;
      PremarkedReachable();
    }

    lemma PremarkedReachable()
      requires Good(heap)
      ensures Sound(heap, heap.premarked, [])
    {
      forall o | o in heap.premarked
        ensures o in heap.body && Reachable(heap, o)
      {
        RootReachable(heap, o);
      }
    }

    /** The state that clearing all marks leaves (only uncollectable objects stay marked). */
    ghost predicate Cleared()
      reads this
    {
      state == Invalid && scanPtr == 0 && marks == heap.premarked && stack == [] && !objectsAreMarked
    }

    /** GC_mark_stack_too_small says that entries were dropped, unless markers may share the stack: then giving back
        says so. */
    twostate predicate Flags()
      reads this
    {
      && (old(tooSmall) ==> tooSmall) && (parallel ==> tooSmall == old(tooSmall))
      && (!parallel && state != old(state) ==> tooSmall) && (tooSmall && !old(tooSmall) ==> state == Invalid)
    }

    /** Push a marked object's body.  On overflow the top entries are dropped and the mark
        state says so. */
    method PushObj(r: Range)
      requires Basic() && LeadsToReachable(heap, r)
      modifies this`stack, this`state, this`tooSmall
      ensures Basic()
      ensures r.len == 0 ==> stack == old(stack) && state == old(state)
      ensures r.len > 0 && old(|stack|) < size ==> stack == old(stack) + [r] && state == old(state)
      ensures r.len > 0 && old(|stack|) == size ==>
                state == Invalid && stack == old(stack)[..size - initialSize / 8] + [r]
      ensures tooSmall == (old(tooSmall) || (r.len > 0 && old(|stack|) == size && !parallel))
    {
      if r.len != 0 {
        if |stack| >= size {
          state := Invalid;
          if !parallel {
            tooSmall := true;
          }
          stack := stack[..|stack| - initialSize / 8];
        }
        stack := stack + [r];
      }
    }

    /** Mark an object and push it unless it was marked before. */
    method PushContents(o: nat)
      requires Basic() && o in heap.body && Reachable(heap, o)
      modifies this`stack, this`state, this`tooSmall, this`marks
      ensures Basic()
      ensures marks == old(marks) + {o}
      ensures o in old(marks) ==> stack == old(stack) && state == old(state)
      ensures (state == old(state) || state == Invalid) && Flags()
      ensures state != Invalid ==> Kept(heap, old(marks), old(stack), marks, stack)
    {
      if o !in marks {
        marks := marks + {o};
        ReachableBody(heap, o);
        PushObj(heap.body[o]);
        assert state != Invalid ==> forall q :: OnStack(heap, old(stack), q) ==> OnStack(heap, stack, q) by {
          if state != Invalid {
            forall q | OnStack(heap, old(stack), q)
              ensures OnStack(heap, stack, q)
            {
              var i :| 0 <= i < |old(stack)| && Inside(heap, old(stack)[i], q);
              assert Inside(heap, stack[i], q);
            }
          }
        }
        if state != Invalid && heap.body[o].len > 0 {
          assert stack[|stack| - 1] == heap.body[o];
        }
      }
    }

    /** The backward search: the last plausible word in cur..limit, if any. */
    method LastPlausible(cur: int, limit: int) returns (found: bool, last: int)
      requires Basic()
      ensures found ==> cur <= last <= limit && forall q :: last < q <= limit ==> q !in heap.ptr
      ensures !found ==> forall q :: cur <= q <= limit ==> q !in heap.ptr
    {
      last, found := limit, false;
      while cur <= last
        invariant last <= limit
        invariant forall q :: last < q <= limit ==> q !in heap.ptr
      {
        if last in heap.plausible {
          return true, last;
        }
        last := last - 1;
      }
    }

    /** Consider every word whose address is in cur..limit: find the last plausible one and
        defer it, consider the ones before it forwards, then the deferred one. */
    method ScanWords(cur: int, limit: int)
      requires Basic()
      requires forall q :: cur <= q <= limit && q in heap.ptr ==> Reachable(heap, heap.ptr[q])
      modifies this`stack, this`state, this`tooSmall, this`marks
      ensures Basic()
      ensures marks == old(marks) + Targets(heap, cur, limit)
      ensures marks == old(marks) ==> stack == old(stack) && state == old(state)
      ensures (state == old(state) || state == Invalid) && Flags()
      ensures state != Invalid ==> Kept(heap, old(marks), old(stack), marks, stack)
    {
      hide Kept, Sound, Good;
      KeptSelf(heap, marks, stack);
      var found, deferred := LastPlausible(cur, limit);
      if found {
        var p := cur;
        while p < deferred
          invariant cur <= p <= deferred
          invariant Basic()
          invariant marks == old(marks) + Targets(heap, cur, p - 1)
          invariant marks == old(marks) ==> stack == old(stack) && state == old(state)
          invariant (state == old(state) || state == Invalid) && Flags()
          invariant state != Invalid ==> Kept(heap, old(marks), old(stack), marks, stack)
        {
          ConsiderWord(p, old(marks), old(stack), old(state));
          p := p + 1;
        }
        ConsiderWord(p, old(marks), old(stack), old(state));
        TargetsClip(heap, cur, deferred, limit);
      } else if cur <= limit {
        TargetsClip(heap, cur, cur - 1, limit);
      }
    }

    /** Consider one word: mark and push what it points to, if that is an unmarked object.
        m, s and st are an earlier state whose promises were kept so far. */
    method ConsiderWord(p: int, ghost m: set<nat>, ghost s: seq<Range>, ghost st: MarkState)
      requires Basic()
      requires p in heap.ptr ==> Reachable(heap, heap.ptr[p])
      requires m <= marks && (marks == m ==> stack == s && state == st) && (state == st || state == Invalid)
      requires state != Invalid ==> Kept(heap, m, s, marks, stack)
      modifies this`stack, this`state, this`tooSmall, this`marks
      ensures Basic()
      ensures marks == old(marks) + (if p in heap.ptr then {heap.ptr[p]} else {})
      ensures marks == m ==> stack == s && state == st
      ensures (state == st || state == Invalid) && (state == old(state) || state == Invalid) && Flags()
      ensures state != Invalid ==> Kept(heap, m, s, marks, stack)
    {
      if p in heap.plausible && p in heap.ptr {
        PushContents(heap.ptr[p]);
        if state != Invalid {
          KeptTransitive(heap, m, s, old(marks), old(stack), marks, stack);
        }
      }
    }

    /** What replacing the top entry by parts of it must keep. */
    ghost predicate Replaces(s0: seq<Range>, s1: seq<Range>, r: Range)
      reads this
    {
      && (forall q :: OnStack(heap, s0, q) <==> OnStack(heap, s1, q) || Inside(heap, r, q))
      && LeadsToReachable(heap, r)
      && Weight(heap.wordUnits, s1) + EntryWeight(heap.wordUnits, r.len) <= Weight(heap.wordUnits, s0)
    }

    /** Halve a long range for sharing: push the first half, overlapping by one word. */
    method Halve(r: Range, ghost s0: seq<Range>) returns (rest: Range)
      requires Basic() && Replaces(s0, stack, r)
      requires r.len > ShareUnits(heap.wordUnits) && |stack| < size - 1
      modifies this`stack
      ensures Basic() && |stack| == old(|stack|) + 1
      ensures Replaces(s0, stack, rest)
      ensures 0 < rest.len < r.len
    {
      var k := heap.wordUnits;
      var half := HalfUnits(k, r.len);
      var piece := Range(r.start, half + k);
      rest := Range(r.start + half, r.len - half);
      HalvesCover(heap, r, half);
      WeightPush(k, stack, piece);
      OnStackPush(heap, stack, piece);
      stack := stack + [piece];
    }

    /** Take the top entry off the stack, halving it while it may be shared. */
    method PopShared() returns (r: Range)
      requires Basic() && |stack| > 0
      modifies this`stack
      ensures Basic() && |stack| < size && r.len > 0
      ensures Replaces(old(stack), stack, r)
      ensures parallel ==> r.len <= ShareUnits(heap.wordUnits) || |stack| >= size - 1
      ensures !parallel ==> stack + [r] == old(stack)
    {
      r := stack[|stack| - 1];
      OnStackPush(heap, stack[..|stack| - 1], r);
      WeightPush(heap.wordUnits, stack[..|stack| - 1], r);
      assert stack == stack[..|stack| - 1] + [r];
      stack := stack[..|stack| - 1];
      while r.len > ShareUnits(heap.wordUnits) && parallel && |stack| < size - 1
        invariant Basic() && |stack| < size && r.len > 0
        invariant Replaces(old(stack), stack, r) && (!parallel ==> stack + [r] == old(stack))
        decreases r.len
      {
        r := Halve(r, old(stack));
      }
    }

    /** Find the part of r to scan now and leave the rest, if any, on the stack: the words to
        scan are those from r.start up to limit. */
    method Split(r: Range, ghost s0: seq<Range>) returns (limit: int)
      requires Basic() && |stack| < size && r.len > 0 && Replaces(s0, stack, r)
      modifies this`stack
      ensures Basic()
      ensures Weight(heap.wordUnits, stack) < Weight(heap.wordUnits, s0)
      ensures forall q :: OnStack(heap, s0, q) <==> OnStack(heap, stack, q) || r.start <= q <= limit
      ensures forall q :: r.start <= q <= limit ==> Inside(heap, r, q)
      ensures limit == if r.len >= SplitUnits(heap.wordUnits) then r.start + 127 * heap.wordUnits - 1
                       else r.start + r.len - heap.wordUnits
    {
      var k := heap.wordUnits;
      if r.len >= SplitUnits(k) {
        var step := SplitUnits(k) - k;
        var rest := Range(r.start + step, r.len - step);
        limit := r.start + step + k - 1 - k;
        assert forall q :: Inside(heap, r, q) <==> Inside(heap, rest, q) || r.start <= q <= limit;
        WeightPush(k, stack, rest);
        OnStackPush(heap, stack, rest);
        stack := stack + [rest];
      } else {
        limit := r.start + r.len - k;
      }
    }

    /** One iteration of the loop of GC_mark_from. */
    method ScanEntry() returns (used: nat, ghost lo: int, ghost hi: int)
      requires Basic() && |stack| > 0
      modifies this`stack, this`state, this`tooSmall, this`marks
      ensures Basic()
      ensures marks == old(marks) + Targets(heap, lo, hi) && used == Extent(heap.wordUnits, lo, hi)
      ensures marks == old(marks) ==>
                state == old(state) && Weight(heap.wordUnits, stack) < Weight(heap.wordUnits, old(stack))
      ensures (state == old(state) || state == Invalid) && Flags()
      ensures state != Invalid ==> Kept(heap, old(marks), old(stack), marks, stack)
    {
      var r := PopShared();
      var limit := Split(r, old(stack));
      ghost var s1 := stack;
      lo, hi := r.start, limit;
      used := if r.start <= limit then limit + heap.wordUnits - r.start else 0;
      ScanWords(r.start, limit);
      if state != Invalid {
        ScannedKept(heap, old(marks), old(stack), s1, marks, stack, r.start, limit);
      }
    }

    /** GC_mark_from on the global stack: scan entries until the credit is used up, or none is left.  The ghost result
        are the runs of words scanned, each begun with credit left. */
    method MarkFrom() returns (ghost scans: seq<(int, int)>)
      requires Basic() && |stack| > 0
      modifies this`stack, this`state, this`tooSmall, this`marks, this`objectsAreMarked
      ensures Basic() && objectsAreMarked
      ensures |scans| > 0 && old(marks) <= marks
      ensures exists credit :: Scanned(heap, old(marks), marks, pageUnits, credit, scans) && (stack == [] || credit < 0)
      ensures marks == old(marks) ==>
                state == old(state) && Weight(heap.wordUnits, stack) < Weight(heap.wordUnits, old(stack))
      ensures (state == old(state) || state == Invalid) && Flags()
      ensures state != Invalid ==> Kept(heap, old(marks), old(stack), marks, stack)
    {
      hide Kept, Good, Sound, Scanned, Targets;
      objectsAreMarked := true;
      scans := [];
      var credit: int := pageUnits;
      ScannedNone(heap, marks, pageUnits);
      KeptSelf(heap, marks, stack);
      ghost var first := true;
      while |stack| > 0 && credit >= 0
        invariant Basic() && objectsAreMarked
        invariant first == (scans == [])
        invariant first ==> marks == old(marks) && stack == old(stack) && state == old(state) && credit == pageUnits
        invariant Scanned(heap, old(marks), marks, pageUnits, credit, scans) && old(marks) <= marks
        invariant marks == old(marks) && !first ==>
            state == old(state) && Weight(heap.wordUnits, stack) < Weight(heap.wordUnits, old(stack))
        invariant (state == old(state) || state == Invalid) && Flags()
        invariant state != Invalid ==> Kept(heap, old(marks), old(stack), marks, stack)
        decreases heap.body.Keys - marks, Weight(heap.wordUnits, stack)
      {
        ghost var m1, s1 := marks, stack;
        ghost var lo, hi;
        var used;
        used, lo, hi := ScanEntry();
        ScannedMore(heap, old(marks), m1, pageUnits, credit, scans, lo, hi);
        scans := scans + [(lo, hi)];
        credit := credit - used;
        first := false;
        if state != Invalid {
          KeptTransitive(heap, old(marks), old(stack), m1, s1, marks, stack);
        }
        if marks != m1 {
          NewlyMarked(m1);
        }
      }
    }

    lemma NewlyMarked(m: set<nat>)
      requires Basic() && m <= marks && m != marks
      ensures heap.body.Keys - marks < heap.body.Keys - m
    {
      var o :| o in marks && o !in m;
      assert o in heap.body;
    }

    // ---------- rescanning blocks and pushing roots

    /** Marked objects of the first upTo blocks point only to marked or stacked objects. */
    ghost predicate AllCovered(upTo: nat)
      reads this
    {
      forall b, o :: InBlock(heap, b, o) && o in marks && b < upTo && o in heap.body ==>
        Covered(heap, marks, stack, heap.body[o])
    }

    /** GC_push_marked: push every marked object of block b. */
    method PushMarked(b: nat)
      requires Basic() && b < |heap.blocks|
      requires |stack| + |heap.blocks[b].objs| <= size
      modifies this`stack, this`state, this`tooSmall, this`objectsAreMarked
      ensures Basic() && state == old(state) && tooSmall == old(tooSmall)
      ensures objectsAreMarked == (old(objectsAreMarked)
                                   || (heap.blocks[b].descr != 0 && exists o :: InBlock(heap, b, o) && o in marks))
      ensures !objectsAreMarked ==> stack == old(stack)
      ensures forall q :: OnStack(heap, old(stack), q) ==> OnStack(heap, stack, q)
      ensures forall o :: InBlock(heap, b, o) && o in marks ==> Covered(heap, marks, stack, heap.body[o])
    {
      var block := heap.blocks[b];
      if block.descr == 0 || forall o | o in block.objs :: o !in marks {
        return;
      }
      objectsAreMarked := true;
      PushBodies(b);
      forall o | InBlock(heap, b, o) && o in marks
        ensures Covered(heap, marks, stack, heap.body[o])
      {
        BodiesCovered(heap, marks, block.objs, stack, o);
      }
    }

    /** The loop of GC_push_marked. */
    method PushBodies(b: nat)
      requires Basic() && b < |heap.blocks|
      requires |stack| + |heap.blocks[b].objs| <= size
      modifies this`stack, this`state, this`tooSmall
      ensures Basic() && state == old(state) && tooSmall == old(tooSmall)
      ensures forall q :: OnStack(heap, old(stack), q) ==> OnStack(heap, stack, q)
      ensures BodiesPushed(heap, marks, heap.blocks[b].objs, |heap.blocks[b].objs|, stack)
    {
      var objs, i := heap.blocks[b].objs, 0;
      hide Inside, OnStack, Sound;
      NoBodies(heap, marks, objs, stack);
      while i < |objs|
        invariant Basic() && state == old(state) && tooSmall == old(tooSmall) && i <= |objs|
        invariant |stack| + (|objs| - i) <= size
        invariant forall q :: OnStack(heap, old(stack), q) ==> OnStack(heap, stack, q)
        invariant BodiesPushed(heap, marks, objs, i, stack)
      {
        var o := objs[i];
        if o in marks {
          assert InBlock(heap, b, o);
          MarkedReachable(heap, marks, stack, o);
          ghost var before := stack;
          PushObj(heap.body[o]);
          BodyPushed(heap, marks, objs, i, before, stack);
        } else {
          BodySkipped(heap, marks, objs, i, stack);
        }
        i := i + 1;
      }
    }

    /** GC_push_next_marked: handle the next allocated block and move the scan pointer past it. */
    method PushNextMarked()
      requires Basic() && stack == []
      modifies this`stack, this`state, this`tooSmall, this`objectsAreMarked, this`scanPtr
      ensures Basic() && state == old(state) && tooSmall == old(tooSmall)
      ensures old(objectsAreMarked) ==> objectsAreMarked
      ensures scanPtr == if old(scanPtr) == |heap.blocks| then 0 else old(scanPtr) + 1
      ensures old(AllCovered(scanPtr)) ==> AllCovered(if scanPtr == 0 then |heap.blocks| else scanPtr)
      ensures old(scanPtr) == |heap.blocks| ==> stack == []
    {
      if scanPtr == |heap.blocks| {
        scanPtr := 0;
      } else {
        PushMarked(scanPtr);
        scanPtr := scanPtr + 1;
      }
    }

    /** An uncollectable block whose objects have pointers. */
    predicate Pushed(b: int) {
      0 <= b < |heap.blocks| && heap.blocks[b].uncollectable && heap.blocks[b].descr > 0
    }

    /** GC_push_next_marked_uncollectable: the same for the next block of the (scanned)
        uncollectable kind. */
    method PushNextMarkedUncollectable()
      requires Basic() && |stack| <= size / 4 + 1
      modifies this`stack, this`state, this`tooSmall, this`objectsAreMarked, this`scanPtr
      ensures Basic() && state == old(state) && tooSmall == old(tooSmall)
      ensures old(objectsAreMarked) ==> objectsAreMarked
      ensures !objectsAreMarked ==> stack == old(stack)
      ensures scanPtr == 0 ==> stack == old(stack) && objectsAreMarked == old(objectsAreMarked)
      ensures scanPtr == 0 || (old(scanPtr) < scanPtr && Pushed(scanPtr - 1))
      ensures forall b :: old(scanPtr) <= b < (if scanPtr == 0 then |heap.blocks| else scanPtr - 1) ==> !Pushed(b)
      ensures forall q :: OnStack(heap, old(stack), q) ==> OnStack(heap, stack, q)
      ensures forall b, o ::
                InBlock(heap, b, o) && o in heap.premarked && old(scanPtr) <= b && (scanPtr == 0 || b < scanPtr)
                ==> Covered(heap, marks, stack, heap.body[o])
    {
      var b := scanPtr;
      while b < |heap.blocks| && !(heap.blocks[b].uncollectable && heap.blocks[b].descr > 0)
        invariant old(scanPtr) <= b <= |heap.blocks| && forall b' :: old(scanPtr) <= b' < b ==> !Pushed(b')
        invariant forall b', o :: InBlock(heap, b', o) && o in heap.premarked && old(scanPtr) <= b' < b
                    ==> Covered(heap, marks, stack, heap.body[o])
      {
        b := b + 1;
      }
      if b == |heap.blocks| {
        scanPtr := 0;
      } else {
        PushMarked(b);
        scanPtr := b + 1;
      }
    }

    ghost predicate RootsCovered()
      reads this
    {
      && heap.premarked <= marks
      && heap.direct <= marks
      && (forall o :: o in heap.eager ==> o in marks)
      && (forall r :: r in heap.roots ==> Covered(heap, marks, stack, r))
    }

    /** The static areas of GC_push_roots; pushing more than fit aborts. */
    method PushRootAreas() returns (ok: bool)
      requires Basic()
      modifies this`stack
      ensures Basic()
      ensures ok <==> old(|stack|) + |heap.roots| <= size
      ensures forall q :: OnStack(heap, old(stack), q) ==> OnStack(heap, stack, q)
      ensures ok ==> forall r, q :: r in heap.roots && Inside(heap, r, q) ==> OnStack(heap, stack, q)
    {
      for i := 0 to |heap.roots|
        invariant Basic() && |stack| == old(|stack|) + i
        invariant forall q :: OnStack(heap, old(stack), q) ==> OnStack(heap, stack, q)
        invariant forall j, q :: 0 <= j < i && Inside(heap, heap.roots[j], q) ==> OnStack(heap, stack, q)
      {
        if |stack| >= size {
          return false;
        }
        RootAreaReachable(heap.roots[i]);
        OnStackPush(heap, stack, heap.roots[i]);
        stack := stack + [heap.roots[i]];
      }
      ok := true;
    }

    lemma RootAreaReachable(r: Range)
      requires Good(heap) && r in heap.roots
      ensures LeadsToReachable(heap, r)
    {
      forall q | Inside(heap, r, q) && q in heap.ptr
        ensures Reachable(heap, heap.ptr[q])
      {
        assert AreaPoints(heap, r, heap.ptr[q]);
        RootReachable(heap, heap.ptr[q]);
      }
    }

    /** GC_push_roots. */
    method PushRoots() returns (ok: bool)
      requires Basic()
      modifies this`stack, this`state, this`tooSmall, this`marks
      ensures Basic()
      ensures ok <==> old(|stack|) + |heap.roots| <= size
      ensures old(marks) <= marks
      ensures marks == old(marks) ==> state == old(state)
      ensures (state == old(state) || state == Invalid) && Flags()
      ensures ok && state != Invalid ==> Kept(heap, old(marks), old(stack), marks, stack) && RootsCovered()
    {
      ok := PushRootAreas();
      if !ok {
        return;
      }
      ghost var s1 := stack;
      assert Kept(heap, old(marks), old(stack), marks, stack);
      assert forall r :: r in heap.roots ==> Covered(heap, marks, stack, r);
      MarkDirect();
      KeptTransitive(heap, old(marks), old(stack), old(marks), s1, marks, stack);
      ghost var m2, s2 := marks, stack;
      assert state != Invalid ==> forall r :: r in heap.roots ==> Covered(heap, m2, s2, r);
      PushEager();
      if state != Invalid {
        KeptTransitive(heap, old(marks), old(stack), m2, s2, marks, stack);
      }
    }

    /** Mark and push the objects found in the collector's own frames. */
    method PushEager()
      requires Basic()
      modifies this`stack, this`state, this`tooSmall, this`marks
      ensures Basic() && old(marks) <= marks
      ensures marks == old(marks) ==> state == old(state)
      ensures (state == old(state) || state == Invalid) && Flags()
      ensures forall o :: o in heap.eager ==> o in marks
      ensures state != Invalid ==> Kept(heap, old(marks), old(stack), marks, stack)
    {
      for i := 0 to |heap.eager|
        invariant Basic() && old(marks) <= marks
        invariant marks == old(marks) ==> state == old(state)
        invariant (state == old(state) || state == Invalid) && Flags()
        invariant forall j :: 0 <= j < i ==> heap.eager[j] in marks
        invariant state != Invalid ==> Kept(heap, old(marks), old(stack), marks, stack)
      {
        ghost var m1, s1 := marks, stack;
        RootReachable(heap, heap.eager[i]);
        PushContents(heap.eager[i]);
        if state != Invalid {
          KeptTransitive(heap, old(marks), old(stack), m1, s1, marks, stack);
        }
      }
    }

    /** Set the mark bits of the pointer-free bookkeeping objects. */
    method MarkDirect()
      requires Basic()
      modifies this`marks
      ensures Basic() && marks == old(marks) + heap.direct
      ensures Kept(heap, old(marks), stack, marks, stack)
    {
      forall o | o in heap.direct
        ensures Reachable(heap, o)
      {
        RootReachable(heap, o);
      }
      marks := marks + heap.direct;
    }

    // ---------- the state machine

    /** What each mark state promises about marks, mark stack and scan pointer. */
    ghost predicate Inv()
      reads this
    {
      && Basic()
      && match state
         case None => true
         case PushUncollectable =>
           forall b, o ::
             InBlock(heap, b, o) && o in marks && (o !in heap.premarked || b < scanPtr) && o in heap.body ==>
             Covered(heap, marks, stack, heap.body[o])
         case RootsPushed => objectsAreMarked && scanPtr == 0 && RootsCovered() && AllCovered(|heap.blocks|)
         case PartiallyInvalid => objectsAreMarked && scanPtr > 0 && AllCovered(scanPtr)
         case Invalid => !objectsAreMarked ==> Cleared()
    }

    /** The marks are exactly the reachable objects. */
    ghost predicate Exact()
      reads this
    {
      forall o :: o in marks <==> Reachable(heap, o)
    }

    lemma EmptyStackExact()
      requires Inv() && state == RootsPushed && stack == []
      ensures Exact()
    {
      forall o, o' | o in marks && o in heap.body && AreaPoints(heap, heap.body[o], o')
        ensures o' in marks
      {
        var b :| InBlock(heap, b, o);
        assert Covered(heap, marks, stack, heap.body[o]);
      }
      forall o | o in heap.body && Root(heap, o)
        ensures o in marks
      {
        if r :| r in heap.roots && AreaPoints(heap, r, o) {
          assert Covered(heap, marks, stack, r);
        }
      }
      ClosedHasReachable(heap, marks);
    }

    // ---------- progress

    ghost function Rank(): nat
      reads this
    {
      match state
      case None => 0
      case RootsPushed => 1
      case PartiallyInvalid => 2
      case Invalid => if !objectsAreMarked then 6 else if scanPtr > 0 then 4 else 3
      case PushUncollectable => 5
    }

    ghost function BlocksLeft(): int
      reads this
    {
      |heap.blocks| - scanPtr
    }

    /** Lexicographic progress over (unmarked objects, state rank, blocks left, stack weight). */
    twostate predicate Progress()
      reads this
    {
      || old(marks) < marks
      || (marks == old(marks) &&
          (Rank() < old(Rank()) ||
           (Rank() == old(Rank()) &&
            (BlocksLeft() < old(BlocksLeft()) ||
             (BlocksLeft() == old(BlocksLeft()) &&
              Weight(heap.wordUnits, stack) < Weight(heap.wordUnits, old(stack)))))))
    }

    /** alloc_mark_stack: resize the (empty) mark stack; fails silently if there is no memory. */
    method AllocMarkStack(n: nat, memory: bool)
      requires Basic() && stack == [] && size <= n
      modifies this`size, this`tooSmall
      ensures Basic() && !tooSmall && size == if memory then n else old(size)
    {
      tooSmall := false;
      if memory {
        size := n;
      }
    }

    /** Marking from the stack keeps the promises of every state. */
    method MarkFromStack()
      requires Inv() && |stack| > 0 && state != None
      modifies this`stack, this`state, this`tooSmall, this`marks, this`objectsAreMarked
      ensures Inv() && objectsAreMarked && Progress()
      ensures (state == old(state) || state == Invalid) && Flags()
    {
      ghost var scans := MarkFrom();
    }

    /** The roots are pushed after a scan that reached the end of the heap. */
    method RootsAfterScan() returns (r: Outcome)
      requires Basic() && state != Invalid && scanPtr == 0 && AllCovered(|heap.blocks|)
      modifies this`stack, this`state, this`tooSmall, this`marks, this`objectsAreMarked
      ensures r == (if old(|stack|) + |heap.roots| <= size then More else Abort)
      ensures r == More ==> Inv() && objectsAreMarked && old(marks) <= marks && state in {Invalid, RootsPushed}
      ensures r == More && marks == old(marks) ==> state == RootsPushed
      ensures r == More && (parallel || state != Invalid) ==> tooSmall == old(tooSmall)
      ensures r == More && !parallel && state == Invalid ==> tooSmall
    {
      var ok := PushRoots();
      if !ok {
        return Abort;
      }
      objectsAreMarked := true;
      if state != Invalid {
        state := RootsPushed;
      }
      r := More;
    }

    /** A number above all objects. */
    method Above() returns (base: nat)
      ensures forall o :: o in heap.body ==> o < base
    {
      base := 0;
      var rest := heap.body.Keys;
      while rest != {}
        invariant rest <= heap.body.Keys && forall o :: o in heap.body && o !in rest ==> o < base
      {
        var o :| o in rest;
        rest := rest - {o};
        if o >= base {
          base := o + 1;
        }
      }
    }

    /** What the phase leaves behind when it is over. */
    twostate predicate PhaseLeaves(end: PM.State)
      reads this
    {
      && marks == end.marks && stack == [] && size == old(size) && tooSmall == (old(tooSmall) || end.tooSmall)
      && state == if end.invalid then Invalid else old(state)
    }

    /** GC_do_parallel_mark: its markers take the steps that the scheduler says so far as they are possible.
        `over` says whether they have ended the phase by then; the ghost results are the run. */
    method ParallelMark(scheduler: PM.Config -> seq<PM.Action>)
      returns (over: bool, ghost base: nat, ghost states: seq<PM.State>, ghost picks: seq<nat>)
      requires Basic()
      modifies this`stack, this`state, this`tooSmall, this`marks
      ensures forall o :: o in heap.body ==> o < base
      ensures var c := Setup(heap, old(marks), old(stack), base, size, localSize, helpers);
              && 0 in c.ids && Follows(c, scheduler(c), states, picks)
              && (over <==> PM.Over(states[|picks|])) && (over ==> PhaseLeaves(states[|picks|]))
      ensures Completing(scheduler) ==> over
      ensures !over ==> unchanged(this)
      ensures over ==> Basic() && stack == [] && old(marks) <= marks && (state == old(state) || state == Invalid)
      ensures over && state != Invalid ==> Kept(heap, old(marks), old(stack), marks, stack)
      ensures over && Keeping(scheduler) && state != old(state) ==> old(marks) < marks
    {
      hide Setup, PM.Inv, PM.GoodConfig, PM.Over, Kept, Follows, PM.NoneGivenBack;
      var above := Above();
      base := above;
      var c := Setup(heap, marks, stack, above, size, localSize, helpers);
      SetupGood(heap, marks, stack, base, size, localSize, helpers);
      SetupMarks(heap, marks, stack, base, size, localSize, helpers);
      var s;
      s, states, picks := RunPhase(c, scheduler(c));
      over := PM.Over(s);
      if over {
        if Keeping(scheduler) { RunDropsMarked(c, scheduler(c), states, picks); }
        PhaseKeeps(heap, marks, stack, base, c, s);
        marks, stack, tooSmall := s.marks, [], tooSmall || s.tooSmall;
        if s.invalid {
          state := Invalid;
        }
      }
    }

    /** The parallel branch of MS_ROOTS_PUSHED. */
    method StepParallel(scheduler: PM.Config -> seq<PM.Action>, memory: bool) returns (r: Outcome, ghost small: bool)
      requires Inv() && state == RootsPushed
      modifies this
      ensures r in {More, Finished, Running}
      ensures r == Running ==> unchanged(this) && !Completing(scheduler)
      ensures r != Running ==> Inv()
      ensures r == More ==> state == Invalid && old(marks) <= marks && (Keeping(scheduler) ==> old(marks) < marks)
      ensures r == Finished ==> state == None && Exact()
      ensures r != Running ==> !tooSmall && (old(tooSmall) ==> small)
      ensures r != Running ==> size == if small && memory then 2 * old(size) else old(size)
    {
      hide Setup, Follows, Completing, Keeping, PM.Over;
      ghost var base, states, picks;
      var over;
      over, base, states, picks := ParallelMark(scheduler);
      small := tooSmall;
      if !over {
        return Running, small;
      }
      if state == RootsPushed {
        EmptyStackExact();
      }
      if tooSmall {
        AllocMarkStack(2 * size, memory);
      }
      if state == RootsPushed {
        state := None;
        return Finished, small;
      }
      return More, small;
    }

    /** A parallel phase dropped entries although it marked nothing. */
    twostate predicate Fruitless()
      reads this
    {
      parallel && !markAlone && old(state) == RootsPushed && state == Invalid && marks == old(marks)
    }

    /** The stack is resized only if it was too small and empty and memory could be had; it is then twice as large. */
    twostate predicate Resizes(memory: bool, r: Outcome)
      reads this
    {
      && (size == old(size) || (memory && size == 2 * old(size)))
      && (old(state) == Invalid && old(objectsAreMarked) && old(stack) == [] && old(scanPtr) == 0 ==>
            size == if old(tooSmall) && memory then 2 * old(size) else old(size))
      && (r == Finished && old(tooSmall) ==> !tooSmall && size == if memory then 2 * old(size) else old(size))
    }

    /** Whether a call in the state MS_PUSH_UNCOLLECTABLE marks from the stack, which is a quarter full, or pushes the
        next block. */
    twostate predicate Scans(r: Outcome)
      reads this
    {
      old(state) == PushUncollectable ==>
        if old(|stack|) - 1 >= old(size) / 4 then
          scanPtr == old(scanPtr) && state in {PushUncollectable, Invalid} && (parallel ==> tooSmall)
        else scanPtr > old(scanPtr) || (scanPtr == 0 && (r == Abort || state in {RootsPushed, Invalid}))
    }

    /** GC_mark_some: a small amount of marking, or a whole parallel phase with the given scheduler. */
    method MarkSome(scheduler: PM.Config -> seq<PM.Action>, memory: bool) returns (r: Outcome)
      requires Inv()
      modifies this
      ensures r == More || r == Finished ==> Inv()
      ensures old(state) == None ==> r == More && unchanged(this)
      ensures old(state) != None && r == More ==> state != None && (Progress() || Fruitless())
      ensures r == Finished ==> state == None && Exact()
      ensures r == Abort ==> size >= initialSize && |heap.roots| > size - size / 4 - 1
      ensures r == Running ==> parallel && !markAlone && unchanged(this) && !Completing(scheduler)
      ensures Keeping(scheduler) ==> !Fruitless()
      ensures Resizes(memory, r) && Scans(r)
    {
      hide Completing, Keeping;
      r := More;
      if state == PushUncollectable {
        if |stack| - 1 >= size / 4 {
          if parallel {
            tooSmall := true;
          }
          MarkFromStack();
        } else {
          r := StepPushUncollectable();
        }
      } else if state == RootsPushed {
        if parallel && !markAlone {
          ghost var small;
          r, small := StepParallel(scheduler, memory);
        } else if |stack| > 0 {
          MarkFromStack();
        } else {
          EmptyStackExact();
          state := None;
          if tooSmall {
            AllocMarkStack(2 * size, memory);
          }
          r := Finished;
        }
      } else if state != None {
        if !objectsAreMarked {
          state := PushUncollectable;
        } else if |stack| > 0 {
          MarkFromStack();
        } else {
          r := StepInvalid(memory);
        }
      }
    }

    /** The scanning branch of MS_PUSH_UNCOLLECTABLE. */
    method StepPushUncollectable() returns (r: Outcome)
      requires Inv() && state == PushUncollectable && |stack| - 1 < size / 4
      modifies this
      ensures r in {More, Abort}
      ensures r == More ==> Inv() && state != None && Progress()
      ensures r == Abort ==> old(|stack|) + |heap.roots| > size
      ensures size == old(size) && (scanPtr == 0 || scanPtr > old(scanPtr))
      ensures r == More && scanPtr == 0 ==> state in {RootsPushed, Invalid}
    {
      PushNextMarkedUncollectable();
      if scanPtr == 0 {
        r := RootsAfterScan();
      } else {
        r := More;
      }
    }

    /** The rescanning branch of MS_INVALID and MS_PARTIALLY_INVALID. */
    method StepInvalid(memory: bool) returns (r: Outcome)
      requires Inv() && state in {Invalid, PartiallyInvalid} && objectsAreMarked && stack == []
      modifies this
      ensures r in {More, Abort}
      ensures r == More ==> Inv() && state != None && Progress()
      ensures r == Abort ==> size >= initialSize && |heap.roots| > size
      ensures size == if old(scanPtr) == 0 && old(state) == Invalid && old(tooSmall) && memory then 2 * old(size)
                      else old(size)
      ensures scanPtr == if old(scanPtr) == |heap.blocks| then 0 else old(scanPtr) + 1
    {
      if scanPtr == 0 && state == Invalid {
        if tooSmall {
          AllocMarkStack(2 * size, memory);
        }
        state := PartiallyInvalid;
      }
      PushNextMarked();
      if scanPtr == 0 && state == PartiallyInvalid {
        r := RootsAfterScan();
      } else {
        r := More;
      }
    }

    /** The mark loop of GC_stopped_mark with a stop function that never stops.  Whatever the parallel
        phases do, marking finishes only with exactly the reachable objects marked.  With a serial
        marker, it always ends; with a parallel one it ends unless some phase never does, or more than
        `patience` phases drop entries without marking anything.  That cannot be if markers give nothing back,
        so that with schedulers that end every phase and give nothing back marking finishes if the roots fit. */
    method StoppedMark(schedulers: nat -> PM.Config -> seq<PM.Action>, memory: nat -> bool, patience: nat)
      returns (r: Outcome)
      requires Basic() && Cleared()
      modifies this
      ensures r == Finished ==> Exact()
      ensures r == Abort ==> |heap.roots| > initialSize - initialSize / 4 - 1
      ensures r == More || r == Running ==> parallel && !markAlone
      ensures (forall n :: Completing(schedulers(n))) ==> r != Running
      ensures (forall n :: Keeping(schedulers(n))) ==> r != More
      ensures |heap.roots| <= initialSize - initialSize / 4 - 1
              && (forall n :: Completing(schedulers(n)) && Keeping(schedulers(n))) ==>
                r == Finished
    {
      hide Completing, Keeping;
      var calls, left := 1, patience;
      r := MarkSome(schedulers(0), memory(0));
      while r == More
        invariant r == More ==> Inv() && state != None
        invariant r == Finished ==> Exact()
        invariant r == Abort ==> |heap.roots| > initialSize - initialSize / 4 - 1
        invariant r == Running ==> parallel && !markAlone && exists n :: !Completing(schedulers(n))
        decreases r == More, left, heap.body.Keys - marks, Rank(), BlocksLeft(), Weight(heap.wordUnits, stack)
      {
        var before, m := state, marks;
        r := MarkSome(schedulers(calls), memory(calls));
        calls := calls + 1;
        if r == More && parallel && !markAlone && before == RootsPushed && state == Invalid && marks == m {
          if left == 0 {
            return More;
          }
          left := left - 1;
        } else if r == More && marks != m {
          NewlyMarked(m);
        }
      }
    }
  }
}
