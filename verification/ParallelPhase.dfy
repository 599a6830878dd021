/**
 One parallel mark phase, GC_do_parallel_mark of tool/gec/backend/c/boehm_gc/mark.c, as the marker's state
 machine uses it: the marks and the mark stack it starts from as a configuration of the parallel
 marker, and what the marks at its end are worth.
 */
module ParallelPhase {
  import opened MarkHeap
  import opened MarkStack
  import PM = ParallelMark

  /** The objects that the words at lo..hi point to, in address order. */
  function TargetList(h: Heap, lo: int, hi: int): seq<nat>
    decreases hi - lo
  {
    if hi < lo then [] else TargetList(h, lo, hi - 1) + if hi in h.ptr then [h.ptr[hi]] else []
  }

  lemma {:induction false} TargetListMembers(h: Heap, lo: int, hi: int)
    ensures forall q :: lo <= q <= hi && q in h.ptr ==> h.ptr[q] in TargetList(h, lo, hi)
    ensures forall o :: o in TargetList(h, lo, hi) ==> exists q :: lo <= q <= hi && q in h.ptr && h.ptr[q] == o
    decreases hi - lo
  {
    if lo <= hi {
      TargetListMembers(h, lo, hi - 1);
    }
  }

  function Words(h: Heap, r: Range): seq<nat> {
    TargetList(h, r.start, r.start + r.len - h.wordUnits)
  }

  /** The words of an area point to what its list says. */
  lemma WordsOf(h: Heap, r: Range)
    ensures forall q :: Inside(h, r, q) && q in h.ptr ==> h.ptr[q] in Words(h, r)
    ensures forall o :: o in Words(h, r) ==> AreaPoints(h, r, o)
  {
    TargetListMembers(h, r.start, r.start + r.len - h.wordUnits);
    forall o | o in Words(h, r)
      ensures AreaPoints(h, r, o)
    {
      var q :| r.start <= q <= r.start + r.len - h.wordUnits && q in h.ptr && h.ptr[q] == o;
      assert Inside(h, r, q);
    }
  }

  /** An area of the phase: an object, or, from `base` on, an entry of the mark stack. */
  function Area(h: Heap, stack: seq<Range>, base: nat, a: nat): Range
    requires a in h.body || base <= a < base + |stack|
  {
    if a in h.body then h.body[a] else stack[a - base]
  }

  /** The areas of the stack entries. */
  function Roots(n: nat, base: nat): set<nat> {
    if n == 0 then {} else Roots(n - 1, base) + {base + n - 1}
  }

  lemma {:induction false} RootsMembers(n: nat, base: nat)
    ensures forall a :: a in Roots(n, base) <==> base <= a < base + n
  {
    if n > 0 {
      RootsMembers(n - 1, base);
    }
  }

  function Setup(h: Heap, marks: set<nat>, stack: seq<Range>, base: nat, size: nat, localSize: nat,
                 ids: set<nat>): PM.Config
    requires forall o :: o in h.body ==> o < base
  {
    RootsMembers(|stack|, base);
    PM.Config(map a | a in h.body.Keys + Roots(|stack|, base) :: Words(h, Area(h, stack, base, a)),
              Roots(|stack|, base), size, localSize, marks,
              seq(|stack|, i requires 0 <= i < |stack| => PM.Entry(base + i, 0, |Words(h, stack[i])|)), ids)
  }

  /** What the marker promises when it starts a phase is what a phase needs. */
  lemma SetupGood(h: Heap, marks: set<nat>, stack: seq<Range>, base: nat, size: nat, localSize: nat, ids: set<nat>)
    requires Good(h) && (forall o :: o in h.body ==> o < base) && marks <= h.body.Keys && |stack| <= size && 0 in ids
    requires localSize >= 6
    ensures var c := Setup(h, marks, stack, base, size, localSize, ids);
            PM.GoodConfig(c) && c.size == size && c.localSize == localSize && c.ids == ids
  {
    var c := Setup(h, marks, stack, base, size, localSize, ids);
    RootsMembers(|stack|, base);
    forall a, i | a in c.kids && 0 <= i < |c.kids[a]|
      ensures c.kids[a][i] in c.kids
    {
      WordsOf(h, Area(h, stack, base, a));
      assert c.kids[a][i] in Words(h, Area(h, stack, base, a));
    }
    forall i | 0 <= i < |stack|
      ensures PM.GoodEntry(c, c.stack0[i]) && c.stack0[i].area in c.roots
    {
      assert base + i !in h.body;
    }
    forall a, i | a in c.roots && 0 <= i < |c.kids[a]|
      ensures c.kids[a][i] in c.marks0 || exists j :: 0 <= j < |c.stack0| && PM.Covers(c.stack0[j], a, i)
    {
      assert a !in h.body;
      assert PM.Covers(c.stack0[a - base], a, i);
    }
  }

  lemma SetupMarks(h: Heap, marks: set<nat>, stack: seq<Range>, base: nat, size: nat, localSize: nat, ids: set<nat>)
    requires forall o :: o in h.body ==> o < base
    ensures Setup(h, marks, stack, base, size, localSize, ids).marks0 == marks
  {
  }

  /** The reachable objects are closed in the phase's sense, so that nothing unreachable gets marked. */
  lemma ReachableClosed(h: Heap, marks: set<nat>, stack: seq<Range>, base: nat, c: PM.Config) returns (M: set<nat>)
    requires Good(h) && (forall o :: o in h.body ==> o < base) && Sound(h, marks, stack)
    requires c == Setup(h, marks, stack, base, c.size, c.localSize, c.ids)
    ensures PM.ClosedMarks(c, M) && forall o :: o in M ==> o in h.body && Reachable(h, o)
  {
    RootsMembers(|stack|, base);
    M := set o | o in h.body && Reachable(h, o);
    forall a, i | a in PM.Sources(c, M) && a in c.kids && 0 <= i < |c.kids[a]|
      ensures c.kids[a][i] in M
    {
      WordsOf(h, Area(h, stack, base, a));
      var o := c.kids[a][i];
      assert o in Words(h, Area(h, stack, base, a));
      if a in h.body {
        StepReachable(h, a, o);
      } else {
        var r := stack[a - base];
        var q :| Inside(h, r, q) && q in h.ptr && h.ptr[q] == o;
        assert LeadsToReachable(h, r);
      }
    }
  }

  /** A phase that dropped nothing leaves no word of its stack unsettled, and settles what it marks. */
  lemma ClosedKept(h: Heap, marks: set<nat>, stack: seq<Range>, base: nat, c: PM.Config, marks': set<nat>)
    requires Good(h) && (forall o :: o in h.body ==> o < base) && marks <= marks' <= h.body.Keys
    requires c == Setup(h, marks, stack, base, c.size, c.localSize, c.ids) && PM.ClosedMarks(c, marks')
    ensures Kept(h, marks, stack, marks', [])
  {
    RootsMembers(|stack|, base);
    forall q | At(h, marks, stack, q) && q in h.ptr
      ensures h.ptr[q] in marks'
    {
      if h.ptr[q] !in marks {
        var i :| 0 <= i < |stack| && Inside(h, stack[i], q);
        SourceSettled(h, marks, stack, base, c, marks', base + i, q);
      }
    }
    forall o | o in marks' - marks
      ensures Covered(h, marks', [], h.body[o])
    {
      forall q | Inside(h, h.body[o], q) && q in h.ptr
        ensures h.ptr[q] in marks'
      {
        SourceSettled(h, marks, stack, base, c, marks', o, q);
      }
    }
  }

  lemma SourceSettled(h: Heap, marks: set<nat>, stack: seq<Range>, base: nat, c: PM.Config, marks': set<nat>, a: nat,
                      q: int)
    requires forall o :: o in h.body ==> o < base
    requires c == Setup(h, marks, stack, base, c.size, c.localSize, c.ids) && PM.ClosedMarks(c, marks')
    requires a in PM.Sources(c, marks') && a in c.kids && (a in h.body || base <= a < base + |stack|)
    requires Inside(h, Area(h, stack, base, a), q) && q in h.ptr
    ensures h.ptr[q] in marks'
  {
    RootsMembers(|stack|, base);
    WordsOf(h, Area(h, stack, base, a));
    var i :| 0 <= i < |c.kids[a]| && c.kids[a][i] == h.ptr[q];
  }

  /** The actions of a schedule at the given places. */
  function Picked(schedule: seq<PM.Action>, picks: seq<nat>): seq<PM.Action>
    requires forall j :: 0 <= j < |picks| ==> picks[j] < |schedule|
  {
    seq(|picks|, j requires 0 <= j < |picks| => schedule[picks[j]])
  }

  /** The places strictly increase and are among the first n. */
  predicate Places(picks: seq<nat>, n: nat) {
    && (forall j :: 0 <= j < |picks| ==> picks[j] < n)
    && (forall i, j :: 0 <= i < j < |picks| ==> picks[i] < picks[j])
  }

  /** Step i of the schedule comes after the first j that were taken, and is not taken. */
  predicate Skipped(picks: seq<nat>, i: nat, j: nat)
    requires j <= |picks|
  {
    (j > 0 ==> picks[j - 1] < i) && (j < |picks| ==> i < picks[j])
  }

  /** A run takes the steps of the schedule in order, and leaves out only steps that are not enabled when their
      turn comes. */
  ghost predicate Follows(c: PM.Config, schedule: seq<PM.Action>, states: seq<PM.State>, picks: seq<nat>)
    requires 0 in c.ids
  {
    && Places(picks, |schedule|) && PM.IsRun(c, states, Picked(schedule, picks))
    && forall i: nat, j: nat :: i < |schedule| && j <= |picks| && Skipped(picks, i, j) ==>
         !PM.Enabled(c, states[j], schedule[i])
  }

  lemma FollowsTaken(c: PM.Config, schedule: seq<PM.Action>, states: seq<PM.State>, picks: seq<nat>, n: nat,
                     s': PM.State)
    requires 0 in c.ids && n < |schedule| && Follows(c, schedule[..n], states, picks)
    requires PM.Enabled(c, states[|picks|], schedule[n]) && s' == PM.Apply(c, states[|picks|], schedule[n])
    ensures Follows(c, schedule[..n + 1], states + [s'], picks + [n])
  {
    hide PM.Enabled, PM.Apply, PM.Init;
    var picks', states' := picks + [n], states + [s'];
    assert Picked(schedule[..n + 1], picks') == Picked(schedule[..n], picks) + [schedule[n]];
    forall i: nat, j: nat | i < n + 1 && j <= |picks'| && Skipped(picks', i, j)
      ensures !PM.Enabled(c, states'[j], schedule[..n + 1][i])
    {
      if j <= |picks| && i < n { assert Skipped(picks, i, j) && schedule[..n][i] == schedule[i]; }
    }
  }

  lemma FollowsSkipped(c: PM.Config, schedule: seq<PM.Action>, states: seq<PM.State>, picks: seq<nat>, n: nat)
    requires 0 in c.ids && n < |schedule| && Follows(c, schedule[..n], states, picks)
    requires !PM.Enabled(c, states[|picks|], schedule[n])
    ensures Follows(c, schedule[..n + 1], states, picks)
  {
    hide PM.Enabled, PM.Apply, PM.Init;
    assert Picked(schedule[..n + 1], picks) == Picked(schedule[..n], picks);
    forall i: nat, j: nat | i < n + 1 && j <= |picks| && Skipped(picks, i, j)
      ensures !PM.Enabled(c, states[j], schedule[..n + 1][i])
    {
      if i < n { assert schedule[..n][i] == schedule[i]; }
    }
  }

  /** If the whole schedule is enabled step by step, s is where its first n steps lead. */
  ghost predicate WholeSoFar(c: PM.Config, schedule: seq<PM.Action>, n: nat, s: PM.State)
    requires 0 in c.ids && n <= |schedule|
  {
    PM.Enables(c, PM.Init(c), schedule) ==>
      PM.Enables(c, s, schedule[n..]) && PM.After(c, s, schedule[n..]) == PM.After(c, PM.Init(c), schedule)
  }

  lemma WholeNext(c: PM.Config, schedule: seq<PM.Action>, n: nat, s: PM.State)
    requires 0 in c.ids && n < |schedule| && WholeSoFar(c, schedule, n, s)
    ensures if PM.Enabled(c, s, schedule[n]) then WholeSoFar(c, schedule, n + 1, PM.Apply(c, s, schedule[n]))
            else WholeSoFar(c, schedule, n + 1, s)
  {
    hide PM.Enabled, PM.Apply, PM.Init;
    assert schedule[n..][1..] == schedule[n + 1..] && schedule[n..][0] == schedule[n];
  }

  lemma WholeStart(c: PM.Config, schedule: seq<PM.Action>)
    requires 0 in c.ids
    ensures WholeSoFar(c, schedule, 0, PM.Init(c))
  {
    assert schedule[0..] == schedule;
  }

  lemma WholeEnd(c: PM.Config, schedule: seq<PM.Action>, s: PM.State)
    requires 0 in c.ids && WholeSoFar(c, schedule, |schedule|, s)
    ensures PM.Enables(c, PM.Init(c), schedule) ==> s == PM.After(c, PM.Init(c), schedule)
  {
    hide PM.Init;
  }

  /** The markers take the steps of the schedule so far as they are possible: a schedule that is enabled step by
      step is taken whole. */
  method RunPhase(c: PM.Config, schedule: seq<PM.Action>)
    returns (s: PM.State, ghost states: seq<PM.State>, ghost picks: seq<nat>)
    requires PM.GoodConfig(c)
    ensures 0 in c.ids && PM.Inv(c, s) && Follows(c, schedule, states, picks) && s == states[|picks|]
    ensures PM.Enables(c, PM.Init(c), schedule) ==> s == PM.After(c, PM.Init(c), schedule)
  {
    assert 0 in c.ids;
    hide PM.Inv, PM.Enabled, PM.Apply, PM.GoodConfig, PM.Init, Follows, WholeSoFar;
    PM.InitInv(c);
    s := PM.Init(c);
    states, picks := [s], [];
    FollowsNothing(c, schedule[..0]);
    WholeStart(c, schedule);
    for i := 0 to |schedule|
      invariant PM.Inv(c, s) && |states| == |picks| + 1 && s == states[|picks|]
      invariant Follows(c, schedule[..i], states, picks) && WholeSoFar(c, schedule, i, s)
    {
      WholeNext(c, schedule, i, s);
      if PM.Enabled(c, s, schedule[i]) {
        PM.StepInv(c, s, schedule[i]);
        FollowsTaken(c, schedule, states, picks, i, PM.Apply(c, s, schedule[i]));
        s := PM.Apply(c, s, schedule[i]);
        states, picks := states + [s], picks + [i];
      } else {
        FollowsSkipped(c, schedule, states, picks, i);
      }
    }
    assert schedule[..|schedule|] == schedule;
    WholeEnd(c, schedule, s);
  }

  lemma FollowsNothing(c: PM.Config, schedule: seq<PM.Action>)
    requires 0 in c.ids && schedule == []
    ensures Follows(c, schedule, [PM.Init(c)], [])
  {
    hide PM.Init;
  }

  /** The scheduler brings every phase to its end. */
  ghost predicate Completing(f: PM.Config -> seq<PM.Action>) {
    forall c :: PM.GoodConfig(c) ==> PM.Completes(c, f(c))
  }

  /** The scheduler never has markers give entries back. */
  ghost predicate Keeping(f: PM.Config -> seq<PM.Action>) {
    forall c :: PM.GoodConfig(c) ==> PM.NoneGivenBack(f(c))
  }

  /** A run that gives nothing back drops entries only after it has marked something. */
  lemma {:induction false} DropsMarked(c: PM.Config, schedule: seq<PM.Action>, states: seq<PM.State>, picks: seq<nat>,
                                       n: nat)
    requires PM.GoodConfig(c) && Follows(c, schedule, states, picks) && PM.NoneGivenBack(schedule) && n < |states|
    ensures states[n].invalid ==> c.marks0 < states[n].marks
  {
    hide PM.Inv, PM.Init, PM.Enabled, PM.Apply;
    if n == 0 {
      InitMarks(c);
    } else {
      DropsMarked(c, schedule, states, picks, n - 1);
      var actions := Picked(schedule, picks);
      PM.RunInv(c, states, actions, n - 1);
      assert actions[n - 1] == schedule[picks[n - 1]];
      StepDropsMarked(c, states[n - 1], actions[n - 1]);
    }
  }

  lemma RunDropsMarked(c: PM.Config, schedule: seq<PM.Action>, states: seq<PM.State>, picks: seq<nat>)
    requires PM.GoodConfig(c) && Follows(c, schedule, states, picks) && PM.NoneGivenBack(schedule)
    ensures |states| == |picks| + 1 && (states[|picks|].invalid ==> c.marks0 < states[|picks|].marks)
  {
    DropsMarked(c, schedule, states, picks, |picks|);
  }

  lemma InitMarks(c: PM.Config)
    requires 0 in c.ids
    ensures !PM.Init(c).invalid
  {
  }

  lemma StepDropsMarked(c: PM.Config, s: PM.State, a: PM.Action)
    requires PM.Inv(c, s) && PM.Enabled(c, s, a) && !a.GiveBack? && (s.invalid ==> c.marks0 < s.marks)
    ensures var s' := PM.Apply(c, s, a); s'.invalid ==> c.marks0 < s'.marks
  {
    hide PM.Covered, PM.DoneOk, PM.Sound, PM.Counted, PM.Watched, PM.Moved, PM.SlotsAfter;
    if a != PM.StopHelp { PM.ShapeOf(c, s, a.t); }
  }

  /** What a phase that is over leaves behind, in terms of the marker's promises. */
  lemma PhaseKeeps(h: Heap, marks: set<nat>, stack: seq<Range>, base: nat, c: PM.Config, s: PM.State)
    requires Good(h) && (forall o :: o in h.body ==> o < base) && Sound(h, marks, stack)
    requires c == Setup(h, marks, stack, base, c.size, c.localSize, c.ids) && PM.GoodConfig(c) && PM.Inv(c, s)
    requires PM.Over(s)
    ensures marks <= s.marks && Sound(h, s.marks, [])
    ensures !s.invalid ==> Kept(h, marks, stack, s.marks, [])
  {
    hide Kept, PM.Inv, PM.GoodConfig, PM.ClosedMarks;
    var M := ReachableClosed(h, marks, stack, base, c);
    PM.MarksLeast(c, s);
    assert s.marks <= M;
    if !s.invalid {
      PM.LeftExact(c, s);
      ClosedKept(h, marks, stack, base, c, s.marks);
    }
  }
}
