/**
 What the entries of the mark stack promise: words that still have to be looked at.
 */
module MarkStack {
  import opened MarkHeap

  ghost predicate OnStack(h: Heap, stack: seq<Range>, q: int) {
    exists i :: 0 <= i < |stack| && Inside(h, stack[i], q)
  }

  /** The word at q needs no more attention, or a mark stack range contains it. */
  ghost predicate At(h: Heap, marks: set<nat>, stack: seq<Range>, q: int) {
    q in h.ptr ==> h.ptr[q] in marks || OnStack(h, stack, q)
  }

  ghost predicate Covered(h: Heap, marks: set<nat>, stack: seq<Range>, r: Range) {
    forall q :: Inside(h, r, q) ==> At(h, marks, stack, q)
  }

  ghost predicate LeadsToReachable(h: Heap, r: Range) {
    forall q :: Inside(h, r, q) && q in h.ptr ==> Reachable(h, h.ptr[q])
  }

  /** Nothing unreachable is marked or about to be, and no entry has size 0. */
  ghost predicate Sound(h: Heap, marks: set<nat>, stack: seq<Range>) {
    && (forall o :: o in marks ==> o in h.body && Reachable(h, o))
    && (forall i :: 0 <= i < |stack| ==> stack[i].len > 0 && LeadsToReachable(h, stack[i]))
  }

  /** Keeps what was promised: every settled word stays settled, and every object that was
      newly marked has all its words settled. */
  ghost predicate Kept(h: Heap, marks: set<nat>, stack: seq<Range>, marks': set<nat>, stack': seq<Range>) {
    && (forall q :: At(h, marks, stack, q) ==> At(h, marks', stack', q))
    && (forall o :: o in marks' - marks && o in h.body ==> Covered(h, marks', stack', h.body[o]))
  }

  lemma KeptTransitive(h: Heap, m0: set<nat>, s0: seq<Range>, m1: set<nat>, s1: seq<Range>, m2: set<nat>,
                       s2: seq<Range>)
    requires Kept(h, m0, s0, m1, s1) && Kept(h, m1, s1, m2, s2)
    ensures Kept(h, m0, s0, m2, s2)
  {
    forall o | o in m2 - m0 && o in h.body
      ensures Covered(h, m2, s2, h.body[o])
    {
      if o in m1 {
        assert Covered(h, m1, s1, h.body[o]);
      }
    }
  }

  lemma ReachableBody(h: Heap, o: nat)
    requires Good(h) && o in h.body && Reachable(h, o)
    ensures LeadsToReachable(h, h.body[o])
  {
    forall q | Inside(h, h.body[o], q) && q in h.ptr
      ensures Reachable(h, h.ptr[q])
    {
      assert AreaPoints(h, h.body[o], h.ptr[q]);
      StepReachable(h, o, h.ptr[q]);
    }
  }

  lemma OnStackPush(h: Heap, s: seq<Range>, r: Range)
    ensures forall q :: OnStack(h, s + [r], q) <==> OnStack(h, s, q) || Inside(h, r, q)
  {
    forall q
      ensures OnStack(h, s + [r], q) <==> OnStack(h, s, q) || Inside(h, r, q)
    {
      if OnStack(h, s, q) {
        var i :| 0 <= i < |s| && Inside(h, s[i], q);
        assert (s + [r])[i] == s[i];
      }
      if Inside(h, r, q) {
        assert (s + [r])[|s|] == r;
      }
    }
  }

  lemma KeptSelf(h: Heap, marks: set<nat>, stack: seq<Range>)
    ensures Kept(h, marks, stack, marks, stack)
  {
  }

  /** The bodies of the marked ones among the first n objects are on the stack. */
  ghost predicate BodiesPushed(h: Heap, marks: set<nat>, objs: seq<nat>, n: nat, stack: seq<Range>) {
    n <= |objs| && forall j, q :: 0 <= j < n && objs[j] in marks && objs[j] in h.body && Inside(h, h.body[objs[j]], q)
                     ==> OnStack(h, stack, q)
  }

  lemma NoBodies(h: Heap, marks: set<nat>, objs: seq<nat>, stack: seq<Range>)
    ensures BodiesPushed(h, marks, objs, 0, stack)
  {
  }

  lemma MarkedReachable(h: Heap, marks: set<nat>, stack: seq<Range>, o: nat)
    requires Good(h) && Sound(h, marks, stack) && o in marks
    ensures o in h.body && LeadsToReachable(h, h.body[o])
  {
    ReachableBody(h, o);
  }

  lemma BodySkipped(h: Heap, marks: set<nat>, objs: seq<nat>, n: nat, stack: seq<Range>)
    requires BodiesPushed(h, marks, objs, n, stack) && n < |objs| && objs[n] !in marks
    ensures BodiesPushed(h, marks, objs, n + 1, stack)
  {
  }

  lemma BodyPushed(h: Heap, marks: set<nat>, objs: seq<nat>, n: nat, stack: seq<Range>, stack': seq<Range>)
    requires BodiesPushed(h, marks, objs, n, stack) && n < |objs| && objs[n] in h.body
    requires h.wordUnits > 0 && stack' == if h.body[objs[n]].len > 0 then stack + [h.body[objs[n]]] else stack
    ensures BodiesPushed(h, marks, objs, n + 1, stack') && forall q :: OnStack(h, stack, q) ==> OnStack(h, stack', q)
  {
    OnStackPush(h, stack, h.body[objs[n]]);
  }

  lemma BodiesCovered(h: Heap, marks: set<nat>, objs: seq<nat>, stack: seq<Range>, o: nat)
    requires BodiesPushed(h, marks, objs, |objs|, stack) && o in objs && o in marks && o in h.body
    ensures Covered(h, marks, stack, h.body[o])
  {
  }
}
