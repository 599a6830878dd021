/**
 The parallel marker of tool/gec/backend/c/boehm_gc/mark.c as a state machine: markers steal
 entries from a shared mark stack that only grows, mark from local stacks, give work back, and
 detect the end by counting active markers.  A step is one shared-memory access or one critical
 section of the mark lock.
 */
module ParallelMark {
  import opened Wrappers

  /** The words lo..hi-1 of an area (an object or a root area) still to be scanned. */
  datatype Entry = Entry(area: nat, lo: nat, hi: nat)

  /** A global stack entry; it is dead once its descriptor was set to 0 by a thief. */
  datatype Slot = Slot(entry: Entry, live: bool)

  datatype Pc =
    | Outside                                  // has not joined the current mark phase
    | Top                                      // at the head of the loop of GC_mark_local
    | Cas(seen: nat)                           // about to advance GC_first_nonempty from `seen`
    | LoadTop                                  // about to load GC_mark_stack_top
    | Lock                                     // saw an empty stack; about to look again under the lock
    | Steal(p: nat, end: nat, n: nat, max: nat)
    | Grab(p: nat, end: nat, n: nat, max: nat) // read a non-zero descriptor in slot p
    | Mark                                     // in GC_do_local_mark
    | Test(target: nat)                        // saw `target` unmarked, about to mark it
    | Wait                                     // inactive
    | Left                                     // returned from GC_mark_local

  datatype Marker = Marker(pc: Pc, first: nat, local: seq<Entry>, cur: Option<Entry>)

  datatype State = State(markers: map<nat, Marker>,
                         slots: seq<Slot>,       // up to GC_mark_stack_top
                         first: nat,             // GC_first_nonempty
                         active: int, helpers: int, helpWanted: bool,
                         invalid: bool,          // GC_mark_state == MS_INVALID
                         tooSmall: bool,         // set on giving back more than the stack holds
                         marks: set<nat>)

  /** The areas (objects and the root areas that the phase starts from) and what their words point
      to; the capacities of the global and local stacks; the marks and stack entries the phase
      starts with; marker 0 starts it. */
  datatype Config = Config(kids: map<nat, seq<nat>>, roots: set<nat>, size: nat, localSize: nat,
                           marks0: set<nat>, stack0: seq<Entry>, ids: set<nat>)

  predicate GoodEntry(c: Config, e: Entry) {
    e.area in c.kids && e.lo <= e.hi <= |c.kids[e.area]|
  }

  /** Local stacks have room for what is stolen at once. */
  ghost predicate GoodConfig(c: Config) {
    && 0 in c.ids && c.localSize >= 6
    && |c.stack0| <= c.size
    && c.roots <= c.kids.Keys && c.marks0 <= c.kids.Keys
    && (forall a, i :: a in c.kids && 0 <= i < |c.kids[a]| ==> c.kids[a][i] in c.kids)
    && (forall i :: 0 <= i < |c.stack0| ==> GoodEntry(c, c.stack0[i]) && c.stack0[i].area in c.roots)
    && (forall a, i :: a in c.roots && 0 <= i < |c.kids[a]| ==>
          c.kids[a][i] in c.marks0 || exists j :: 0 <= j < |c.stack0| && Covers(c.stack0[j], a, i))
  }

  predicate Covers(e: Entry, a: nat, i: int) {
    e.area == a && e.lo <= i < e.hi
  }

  function Init(c: Config): State
    requires 0 in c.ids
  {
    State(map t | t in c.ids :: Marker(if t == 0 then Top else Outside, 0, [], None),
          seq(|c.stack0|, i requires 0 <= i < |c.stack0| => Slot(c.stack0[i], true)),
          0, 1, 1, true, false, false, c.marks0)
  }

  // ---------- steps

  datatype Action =
    | Join(t: nat)                      // GC_help_marker
    | ReadFirst(t: nat)                 // read GC_first_nonempty
    | CompareAndSwap(t: nat)            // try to advance it
    | ReadTop(t: nat)                   // load the stack top
    | LookAgain(t: nat)                 // under the lock: still empty?
    | StealNext(t: nat)                 // look at the next slot, or stop stealing
    | Take(t: nat, extra: nat)          // zero the descriptor and copy the entry
    | Pop(t: nat)                       // start on a local entry
    | Child(t: nat)                     // test the mark of the next target
    | SetMark(t: nat, keep: nat)        // mark it and push it, or drop entries on overflow
    | Finish(t: nat)                    // an entry is done
    | Split(t: nat, mid: nat, end: nat, front: bool) // leave the front or the back of a long range on the local stack
    | GiveBack(t: nat, n: nat)          // GC_return_mark_stack
    | LocalEmpty(t: nat)                // GC_do_local_mark returns
    | Leave(t: nat)                     // no active marker and nothing on the stack
    | Resume(t: nat)                    // work may have appeared
    | StopHelp                          // marker 0 withdraws GC_help_wanted

  function ToGet(n: int): nat {
    if n < 10 then 1 else 5
  }

  predicate MarkerEnabled(c: Config, s: State, m: Marker, a: Action) {
    match a
    case Join(_) => m.pc == Outside && s.helpWanted
    case ReadFirst(_) => m.pc == Top
    case CompareAndSwap(_) => m.pc.Cas?
    case ReadTop(_) => m.pc == LoadTop
    case LookAgain(_) => m.pc == Lock
    case StealNext(_) => m.pc.Steal?
    case Take(_, _) => m.pc.Grab? && m.pc.p < |s.slots|
    case Pop(_) => m.pc == Mark && m.cur == None && m.local != []
    case Child(_) => m.pc == Mark && m.cur.Some? && m.cur.value.lo < m.cur.value.hi && GoodEntry(c, m.cur.value)
    case SetMark(_, keep) =>
      && m.pc.Test? && m.cur.Some? && m.pc.target in c.kids && keep <= |m.local|
      && (Overflows(c, m) ==> keep < c.localSize)
    case Finish(_) => m.pc == Mark && m.cur.Some? && m.cur.value.lo == m.cur.value.hi
    case Split(_, mid, end, _) =>
      && m.pc == Mark && m.cur.Some? && m.cur.value.lo < mid <= end <= m.cur.value.hi && mid < m.cur.value.hi
      && |m.local| < c.localSize
    case GiveBack(_, n) => m.pc == Mark && m.cur == None && 0 < n <= |m.local|
    case LocalEmpty(_) => m.pc == Mark && m.cur == None && m.local == []
    case Leave(_) => m.pc == Wait && s.active == 0 && |s.slots| <= s.first
    case Resume(_) => m.pc == Wait && s.first < |s.slots|
    case StopHelp => false
  }

  predicate Enabled(c: Config, s: State, a: Action) {
    if a == StopHelp then 0 in s.markers && s.markers[0].pc == Left
    else a.t in s.markers && MarkerEnabled(c, s, s.markers[a.t], a)
  }

  /** Pushing the target would exceed the local mark stack. */
  predicate Overflows(c: Config, m: Marker)
    requires m.pc.Test? && m.pc.target in c.kids
  {
    c.kids[m.pc.target] != [] && |m.local| >= c.localSize
  }

  /** The marker after marking its target: the target is pushed unless it has nothing to scan, and
      only `keep` entries below it survive an overflow. */
  function Marked(c: Config, m: Marker, keep: nat): Marker
    requires m.pc.Test? && m.pc.target in c.kids && m.cur.Some? && keep <= |m.local|
  {
    var e := m.cur.value;
    var k := m.pc.target;
    var whole := Entry(k, 0, |c.kids[k]|);
    Marker(Mark, m.first,
           if c.kids[k] == [] then m.local
           else if Overflows(c, m) then m.local[..keep] + [whole]
           else m.local + [whole],
           Some(e.(lo := e.lo + 1)))
  }

  /** The marker after its step. */
  function Moved(c: Config, s: State, m: Marker, a: Action): Marker
    requires MarkerEnabled(c, s, m, a)
  {
    match a
    case Join(_) => m.(pc := Top, first := s.first)
    case ReadFirst(_) =>
      if m.first < s.first then m.(pc := LoadTop, first := s.first)
      else if s.first < m.first then m.(pc := Cas(s.first))
      else m.(pc := LoadTop)
    case CompareAndSwap(_) => m.(pc := LoadTop)
    case ReadTop(_) =>
      if |s.slots| <= m.first then m.(pc := Lock)
      else m.(pc := Steal(m.first, |s.slots|, 0, ToGet(|s.slots| - m.first)))
    case LookAgain(_) =>
      if |s.slots| <= m.first then m.(pc := Wait)
      else m.(pc := Steal(m.first, |s.slots|, 0, ToGet(|s.slots| - m.first)))
    case StealNext(_) =>
      if m.pc.p < m.pc.end && m.pc.n <= m.pc.max && m.pc.p < |s.slots| then
        if s.slots[m.pc.p].live then m.(pc := Grab(m.pc.p, m.pc.end, m.pc.n, m.pc.max))
        else m.(pc := Steal(m.pc.p + 1, m.pc.end, m.pc.n, m.pc.max))
      else m.(pc := Mark, first := m.pc.p)
    case Take(_, extra) =>
      m.(pc := Steal(m.pc.p + 1, m.pc.end, m.pc.n + 1 + extra, m.pc.max), local := m.local + [s.slots[m.pc.p].entry])
    case Pop(_) => m.(cur := Some(m.local[|m.local| - 1]), local := m.local[..|m.local| - 1])
    case Child(_) =>
      var e := m.cur.value;
      var k := c.kids[e.area][e.lo];
      if k in s.marks then m.(cur := Some(e.(lo := e.lo + 1))) else m.(pc := Test(k))
    case SetMark(_, keep) => Marked(c, m, keep)
    case Finish(_) => m.(cur := None)
    case Split(_, mid, end, front) =>
      var e := m.cur.value;
      if front then m.(cur := Some(e.(lo := mid)), local := m.local + [e.(hi := end)])
      else m.(cur := Some(e.(hi := end)), local := m.local + [e.(lo := mid)])
    case GiveBack(_, n) => m.(local := m.local[n..])
    case LocalEmpty(_) => m.(pc := Top)
    case Leave(_) => m.(pc := Left)
    case Resume(_) => m.(pc := Top)
  }

  /** The global stack after a step: stealing clears a descriptor, giving back pushes if there is room. */
  function SlotsAfter(c: Config, s: State, m: Marker, a: Action): seq<Slot>
    requires MarkerEnabled(c, s, m, a)
  {
    if a.Take? then s.slots[m.pc.p := Slot(s.slots[m.pc.p].entry, false)]
    else if a.GiveBack? && |s.slots| + a.n <= c.size then
      s.slots + seq(a.n, i requires 0 <= i < a.n => Slot(m.local[i], true))
    else s.slots
  }

  function FirstAfter(s: State, m: Marker, a: Action): nat {
    if a.CompareAndSwap? && m.pc.Cas? && s.first == m.pc.seen then m.first else s.first
  }

  function ActiveChange(s: State, m: Marker, a: Action): int {
    if a.Join? || a.Resume? then 1 else if a.LookAgain? && |s.slots| <= m.first then -1 else 0
  }

  function HelpersChange(a: Action): int {
    if a.Join? then 1 else if a.Leave? then -1 else 0
  }

  /** The step drops entries. */
  predicate Drops(c: Config, s: State, m: Marker, a: Action)
    requires MarkerEnabled(c, s, m, a)
  {
    (a.SetMark? && Overflows(c, m)) || (a.GiveBack? && |s.slots| + a.n > c.size)
  }

  function MarksAfter(c: Config, s: State, m: Marker, a: Action): set<nat>
    requires MarkerEnabled(c, s, m, a)
  {
    if a.SetMark? then s.marks + {m.pc.target} else s.marks
  }

  function Apply(c: Config, s: State, a: Action): State
    requires Enabled(c, s, a)
  {
    if a == StopHelp then s.(helpWanted := false)
    else
      var m := s.markers[a.t];
      State(s.markers[a.t := Moved(c, s, m, a)], SlotsAfter(c, s, m, a), FirstAfter(s, m, a),
            s.active + ActiveChange(s, m, a), s.helpers + HelpersChange(a), s.helpWanted,
            s.invalid || Drops(c, s, m, a), s.tooSmall || (a.GiveBack? && Drops(c, s, m, a)), MarksAfter(c, s, m, a))
  }

  /** A run: every step was enabled and led to the next state. */
  ghost predicate IsRun(c: Config, states: seq<State>, actions: seq<Action>)
    requires 0 in c.ids
  {
    && |states| == |actions| + 1
    && states[0] == Init(c)
    && forall i :: 0 <= i < |actions| ==>
         Enabled(c, states[i], actions[i]) && states[i + 1] == Apply(c, states[i], actions[i])
  }

  // ---------- invariants

  predicate InPhase(pc: Pc) {
    pc != Outside && pc != Left
  }

  predicate Busy(pc: Pc) {
    InPhase(pc) && pc != Wait
  }

  ghost function BusyIds(s: State): set<nat> {
    set t | t in s.markers && Busy(s.markers[t].pc)
  }

  ghost function InPhaseIds(s: State): set<nat> {
    set t | t in s.markers && InPhase(s.markers[t].pc)
  }

  ghost predicate Counted(s: State) {
    s.active == |BusyIds(s)| && s.helpers == |InPhaseIds(s)|
  }

  ghost predicate DeadBelow(slots: seq<Slot>, n: nat) {
    n <= |slots| && forall j :: 0 <= j < n ==> !slots[j].live
  }

  /** The areas whose words the phase has to scan: the root areas and what it marked itself. */
  function Sources(c: Config, marks: set<nat>): set<nat> {
    (marks - c.marks0) + c.roots
  }

  predicate Owned(c: Config, marks: set<nat>, e: Entry) {
    GoodEntry(c, e) && e.area in Sources(c, marks)
  }

  /** What is true of one marker at each point of its program. */
  ghost predicate MarkerOk(c: Config, slots: seq<Slot>, marks: set<nat>, m: Marker) {
    && (InPhase(m.pc) ==> DeadBelow(slots, m.first))
    && (m.pc.Steal? ==> m.pc.p <= m.pc.end <= |slots| && DeadBelow(slots, m.pc.p))
    && (m.pc.Grab? ==> m.pc.p < m.pc.end <= |slots| && DeadBelow(slots, m.pc.p))
    && (m.pc.Cas? ==> m.pc.seen < m.first)
    && (m.local != [] ==> m.pc.Steal? || m.pc.Grab? || m.pc.Mark? || m.pc.Test?)
    && (m.cur.Some? ==> m.pc.Mark? || m.pc.Test?)
    && (forall j :: 0 <= j < |m.local| ==> Owned(c, marks, m.local[j]))
    && (m.cur.Some? ==> Owned(c, marks, m.cur.value))
    && (m.pc.Test? ==> m.pc.target !in c.marks0 && m.cur.Some? && m.cur.value.lo < m.cur.value.hi
                       && m.pc.target == c.kids[m.cur.value.area][m.cur.value.lo])
  }

  ghost predicate Shape(c: Config, s: State) {
    && s.markers.Keys == c.ids
    && c.marks0 <= s.marks <= c.kids.Keys
    && DeadBelow(s.slots, s.first)
    && (forall j :: 0 <= j < |s.slots| ==> Owned(c, s.marks, s.slots[j].entry))
    && (forall t :: t in s.markers ==> MarkerOk(c, s.slots, s.marks, s.markers[t]))
  }

  ghost predicate SlotHas(slots: seq<Slot>, a: nat, i: int) {
    exists j :: 0 <= j < |slots| && slots[j].live && Covers(slots[j].entry, a, i)
  }

  ghost predicate MarkerHas(m: Marker, a: nat, i: int) {
    || (exists j :: 0 <= j < |m.local| && Covers(m.local[j], a, i))
    || (m.cur.Some? && Covers(m.cur.value, a, i))
  }

  /** The ith word of area a is still going to be scanned. */
  ghost predicate Pending(s: State, a: nat, i: int) {
    SlotHas(s.slots, a, i) || exists t :: t in s.markers && MarkerHas(s.markers[t], a, i)
  }

  /** Unless entries were dropped, every word of a marked object or root area points to a marked
      object or is still going to be scanned. */
  ghost predicate Covered(c: Config, s: State) {
    !s.invalid ==>
      forall a, i :: a in Sources(c, s.marks) && a in c.kids && 0 <= i < |c.kids[a]| ==>
        c.kids[a][i] in s.marks || Pending(s, a, i)
  }

  ghost predicate Idle(m: Marker) {
    m.local == [] && m.cur == None && !m.pc.Grab?
  }

  /** Once a marker has left there is no work anywhere. */
  ghost predicate DoneOk(s: State) {
    (exists t :: t in s.markers && s.markers[t].pc == Left) ==>
      s.first == |s.slots| && forall t :: t in s.markers ==> Idle(s.markers[t])
  }

  /** The marker is active and will look at slots from `first` on before it can become inactive. */
  predicate Watches(first: nat, m: Marker) {
    || m.pc == Top || m.pc.Steal? || m.pc.Grab? || m.pc == Mark || m.pc.Test?
    || ((m.pc == LoadTop || m.pc == Lock) && m.first == first)
    || (m.pc.Cas? && m.pc.seen == first)
  }

  /** While GC_first_nonempty is below the stack top some active marker is going to find that out. */
  ghost predicate Watched(s: State) {
    s.first < |s.slots| ==> exists t :: t in s.markers && Watches(s.first, s.markers[t])
  }

  ghost predicate ClosedMarks(c: Config, M: set<nat>) {
    c.marks0 <= M && forall a, i :: a in Sources(c, M) && a in c.kids && 0 <= i < |c.kids[a]| ==> c.kids[a][i] in M
  }

  ghost predicate Sound(c: Config, s: State) {
    c.marks0 <= s.marks && forall M :: ClosedMarks(c, M) ==> s.marks <= M
  }

  ghost predicate Inv(c: Config, s: State) {
    Shape(c, s) && Counted(s) && Covered(c, s) && DoneOk(s) && Watched(s) && Sound(c, s)
  }

  // ---------- the start

  lemma InitInv(c: Config)
    requires GoodConfig(c)
    ensures Inv(c, Init(c))
  {
    var s := Init(c);
    assert BusyIds(s) == {0};
    assert InPhaseIds(s) == {0};
    assert Watches(0, s.markers[0]);
    forall a, i | a in Sources(c, s.marks) && a in c.kids && 0 <= i < |c.kids[a]|
      ensures c.kids[a][i] in s.marks || Pending(s, a, i)
    {
      if c.kids[a][i] !in c.marks0 {
        var j :| 0 <= j < |c.stack0| && Covers(c.stack0[j], a, i);
        assert s.slots[j].live && Covers(s.slots[j].entry, a, i);
      }
    }
  }

  // ---------- counting

  lemma Resized(A: set<nat>, A': set<nat>, t: nat, now: bool)
    requires A' == (A - {t}) + (if now then {t} else {})
    ensures |A'| == |A| - (if t in A then 1 else 0) + (if now then 1 else 0)
  {
  }

  lemma BusyStep(s: State, t: nat, m: Marker, s': State)
    requires t in s.markers && s'.markers == s.markers[t := m]
    ensures |BusyIds(s')| == |BusyIds(s)| - (if Busy(s.markers[t].pc) then 1 else 0) + (if Busy(m.pc) then 1 else 0)
  {
    assert BusyIds(s') == (BusyIds(s) - {t}) + (if Busy(m.pc) then {t} else {});
    Resized(BusyIds(s), BusyIds(s'), t, Busy(m.pc));
  }

  lemma InPhaseStep(s: State, t: nat, m: Marker, s': State)
    requires t in s.markers && s'.markers == s.markers[t := m]
    ensures |InPhaseIds(s')| ==
              |InPhaseIds(s)| - (if InPhase(s.markers[t].pc) then 1 else 0) + (if InPhase(m.pc) then 1 else 0)
  {
    assert InPhaseIds(s') == (InPhaseIds(s) - {t}) + (if InPhase(m.pc) then {t} else {});
    Resized(InPhaseIds(s), InPhaseIds(s'), t, InPhase(m.pc));
  }

  /** What a step does to the counters is what it does to its marker. */
  lemma CountersFollow(c: Config, s: State, m: Marker, a: Action)
    requires MarkerEnabled(c, s, m, a)
    ensures var m' := Moved(c, s, m, a);
            && ActiveChange(s, m, a) == (if Busy(m'.pc) then 1 else 0) - (if Busy(m.pc) then 1 else 0)
            && HelpersChange(a) == (if InPhase(m'.pc) then 1 else 0) - (if InPhase(m.pc) then 1 else 0)
  {
  }

  lemma StepCounted(c: Config, s: State, a: Action)
    requires Counted(s) && Enabled(c, s, a)
    ensures Counted(Apply(c, s, a))
  {
    hide BusyIds, InPhaseIds, Busy, InPhase, Moved, SlotsAfter, FirstAfter, ActiveChange, HelpersChange, Drops,
         MarksAfter, MarkerEnabled;
    var s' := Apply(c, s, a);
    if a == StopHelp {
      SameIds(s, s');
    } else {
      CountersFollow(c, s, s.markers[a.t], a);
      BusyStep(s, a.t, s'.markers[a.t], s');
      InPhaseStep(s, a.t, s'.markers[a.t], s');
    }
  }

  lemma SameIds(s: State, s': State)
    requires s'.markers == s.markers
    ensures BusyIds(s') == BusyIds(s) && InPhaseIds(s') == InPhaseIds(s)
  {
  }

  /** No active marker means that every marker is out of the phase or waiting. */
  lemma NoneBusy(s: State)
    requires Counted(s) && s.active == 0
    ensures forall t :: t in s.markers ==> !Busy(s.markers[t].pc)
  {
    assert BusyIds(s) == {};
    forall t | t in s.markers
      ensures !Busy(s.markers[t].pc)
    {
      assert t !in BusyIds(s);
    }
  }

  // ---------- shape

  /** Slots only die, new ones come on top, and marks only grow: other markers stay in order. */
  lemma OthersOk(c: Config, s: State, slots': seq<Slot>, marks': set<nat>, t: nat)
    requires Shape(c, s) && s.marks <= marks' && |s.slots| <= |slots'|
    requires forall j :: 0 <= j < |s.slots| ==>
               slots'[j].entry == s.slots[j].entry && (slots'[j].live ==> s.slots[j].live)
    ensures forall t' :: t' in s.markers && t' != t ==> MarkerOk(c, slots', marks', s.markers[t'])
    ensures forall n: nat :: DeadBelow(s.slots, n) ==> DeadBelow(slots', n)
    ensures forall j :: 0 <= j < |s.slots| ==> Owned(c, marks', slots'[j].entry)
  {
    forall t' | t' in s.markers && t' != t
      ensures MarkerOk(c, slots', marks', s.markers[t'])
    {
      assert MarkerOk(c, s.slots, s.marks, s.markers[t']);
    }
  }

  predicate Local(a: Action) {
    a.Pop? || a.Child? || a.SetMark? || a.Finish? || a.Split?
  }

  /** A marker stays in order if only where it is in its program changes. */
  lemma MoveOnShape(c: Config, s: State, m: Marker, a: Action)
    requires MarkerEnabled(c, s, m, a) && MarkerOk(c, s.slots, s.marks, m) && DeadBelow(s.slots, s.first)
    requires a.Join? || a.ReadFirst? || a.CompareAndSwap? || a.LocalEmpty? || a.Leave? || a.Resume?
    ensures MarkerOk(c, s.slots, s.marks, Moved(c, s, m, a)) && DeadBelow(s.slots, FirstAfter(s, m, a))
  {
    hide DeadBelow, Owned;
  }

  lemma LookShape(c: Config, s: State, m: Marker, a: Action)
    requires MarkerEnabled(c, s, m, a) && MarkerOk(c, s.slots, s.marks, m) && (a.ReadTop? || a.LookAgain?)
    ensures MarkerOk(c, s.slots, s.marks, Moved(c, s, m, a))
  {
    hide Owned, DeadBelow;
  }

  lemma DeadNext(slots: seq<Slot>, p: nat)
    requires DeadBelow(slots, p) && p < |slots| && !slots[p].live
    ensures DeadBelow(slots, p + 1)
  {
  }

  lemma StealNextShape(c: Config, s: State, m: Marker, a: Action)
    requires MarkerEnabled(c, s, m, a) && MarkerOk(c, s.slots, s.marks, m) && a.StealNext?
    ensures MarkerOk(c, s.slots, s.marks, Moved(c, s, m, a))
  {
    hide Owned, DeadBelow;
    if m.pc.p < |s.slots| && !s.slots[m.pc.p].live {
      DeadNext(s.slots, m.pc.p);
    }
  }

  /** Only descriptors are cleared. */
  ghost predicate SlotsDie(slots: seq<Slot>, slots': seq<Slot>) {
    |slots'| == |slots| &&
    forall j :: 0 <= j < |slots| ==> slots'[j].entry == slots[j].entry && (slots'[j].live ==> slots[j].live)
  }

  lemma TakeShape(c: Config, s: State, m: Marker, a: Action)
    requires MarkerEnabled(c, s, m, a) && MarkerOk(c, s.slots, s.marks, m) && a.Take?
    requires Owned(c, s.marks, s.slots[m.pc.p].entry)
    ensures MarkerOk(c, SlotsAfter(c, s, m, a), s.marks, Moved(c, s, m, a)) && SlotsDie(s.slots, SlotsAfter(c, s, m, a))
  {
    hide Owned;
  }

  lemma ChildShape(c: Config, s: State, m: Marker, a: Action)
    requires GoodConfig(c) && c.marks0 <= s.marks
    requires MarkerEnabled(c, s, m, a) && MarkerOk(c, s.slots, s.marks, m) && a.Child?
    ensures MarkerOk(c, s.slots, s.marks, Moved(c, s, m, a))
  {
    hide DeadBelow;
    var e := m.cur.value;
    assert c.kids[e.area][e.lo] in c.kids;
  }

  lemma MoveShape(c: Config, s: State, m: Marker, a: Action)
    requires MarkerEnabled(c, s, m, a) && MarkerOk(c, s.slots, s.marks, m) && (a.Pop? || a.Finish? || a.Split?)
    ensures MarkerOk(c, s.slots, s.marks, Moved(c, s, m, a))
  {
    hide DeadBelow;
  }

  lemma MarkedOk(c: Config, slots: seq<Slot>, marks: set<nat>, m: Marker, keep: nat)
    requires MarkerOk(c, slots, marks, m) && m.pc.Test? && m.pc.target in c.kids && keep <= |m.local|
    ensures MarkerOk(c, slots, marks + {m.pc.target}, Marked(c, m, keep))
  {
    hide DeadBelow;
    var m' := Marked(c, m, keep);
    forall j | 0 <= j < |m'.local|
      ensures Owned(c, marks + {m.pc.target}, m'.local[j])
    {
      if j < |m.local| && m'.local[j] == m.local[j] {
        assert Owned(c, marks, m.local[j]);
      }
    }
  }

  lemma GiveBackShape(c: Config, s: State, m: Marker, a: Action)
    requires MarkerEnabled(c, s, m, a) && MarkerOk(c, s.slots, s.marks, m) && a.GiveBack?
    ensures var slots' := SlotsAfter(c, s, m, a);
            && MarkerOk(c, slots', s.marks, Moved(c, s, m, a))
            && |s.slots| <= |slots'| && slots'[..|s.slots|] == s.slots
            && forall j :: |s.slots| <= j < |slots'| ==> Owned(c, s.marks, slots'[j].entry)
  {
    hide Owned;
  }

  /** The stepping marker stays in order, slots only die or come on top, and marks only grow. */
  lemma MarkerStep(c: Config, s: State, m: Marker, a: Action)
    requires GoodConfig(c) && Shape(c, s) && MarkerEnabled(c, s, m, a) && MarkerOk(c, s.slots, s.marks, m)
    ensures var slots', marks' := SlotsAfter(c, s, m, a), MarksAfter(c, s, m, a);
            && MarkerOk(c, slots', marks', Moved(c, s, m, a)) && s.marks <= marks' <= c.kids.Keys
            && |s.slots| <= |slots'|
            && (forall j :: 0 <= j < |s.slots| ==>
                  slots'[j].entry == s.slots[j].entry && (slots'[j].live ==> s.slots[j].live))
            && (forall j :: |s.slots| <= j < |slots'| ==> Owned(c, marks', slots'[j].entry))
    ensures FirstAfter(s, m, a) == s.first || DeadBelow(s.slots, FirstAfter(s, m, a))
  {
    hide MarkerOk, Owned, DeadBelow, Moved, Marked;
    if a.SetMark? {
      SetMarkShape(c, s, m, a);
    } else if a.Child? {
      ChildShape(c, s, m, a);
    } else if Local(a) {
      MoveShape(c, s, m, a);
    } else if a.GiveBack? {
      GiveBackShape(c, s, m, a);
      var slots' := SlotsAfter(c, s, m, a);
      assert forall j :: 0 <= j < |s.slots| ==> s.slots[j] == slots'[..|s.slots|][j];
    } else if a.Take? {
      TakeShape(c, s, m, a);
    } else if a.StealNext? {
      StealNextShape(c, s, m, a);
    } else if a.ReadTop? || a.LookAgain? {
      LookShape(c, s, m, a);
    } else {
      MoveOnShape(c, s, m, a);
    }
  }

  lemma SetMarkShape(c: Config, s: State, m: Marker, a: Action)
    requires MarkerEnabled(c, s, m, a) && MarkerOk(c, s.slots, s.marks, m) && a.SetMark?
    ensures MarkerOk(c, s.slots, MarksAfter(c, s, m, a), Moved(c, s, m, a))
  {
    hide MarkerOk, Marked;
    MarkedOk(c, s.slots, s.marks, m, a.keep);
  }

  lemma StepShape(c: Config, s: State, a: Action)
    requires GoodConfig(c) && Shape(c, s) && Enabled(c, s, a)
    ensures Shape(c, Apply(c, s, a))
  {
    hide MarkerOk, Owned, DeadBelow, Moved, SlotsAfter, MarksAfter, FirstAfter, MarkerEnabled, GoodConfig;
    if a != StopHelp {
      var s', m := Apply(c, s, a), s.markers[a.t];
      MarkerStep(c, s, m, a);
      OthersOk(c, s, s'.slots, s'.marks, a.t);
    }
  }

  // ---------- coverage

  ghost predicate Here(slots: seq<Slot>, m: Marker, a: nat, i: int) {
    SlotHas(slots, a, i) || MarkerHas(m, a, i)
  }

  /** What the global stack and the stepping marker had to scan they still have to, or it was
      scanned and its target is marked. */
  ghost predicate HereKept(c: Config, slots: seq<Slot>, m: Marker, slots': seq<Slot>, m': Marker, marks': set<nat>) {
    forall a, i :: a in c.kids && 0 <= i < |c.kids[a]| && Here(slots, m, a, i) ==>
      Here(slots', m', a, i) || c.kids[a][i] in marks'
  }

  /** Newly marked objects are to be scanned. */
  ghost predicate NewHere(c: Config, marks: set<nat>, marks': set<nat>, slots': seq<Slot>, m': Marker) {
    forall k, i :: k in marks' - marks && k !in c.roots && k in c.kids && 0 <= i < |c.kids[k]| ==>
      Here(slots', m', k, i)
  }

  lemma CoverStep(c: Config, s: State, s': State, t: nat)
    requires Covered(c, s) && t in s.markers && t in s'.markers && s'.markers == s.markers[t := s'.markers[t]]
    requires s.marks <= s'.marks && (s.invalid ==> s'.invalid)
    requires !s'.invalid ==> HereKept(c, s.slots, s.markers[t], s'.slots, s'.markers[t], s'.marks)
    requires !s'.invalid ==> NewHere(c, s.marks, s'.marks, s'.slots, s'.markers[t])
    ensures Covered(c, s')
  {
    if !s'.invalid {
      forall a, i | a in Sources(c, s'.marks) && a in c.kids && 0 <= i < |c.kids[a]|
        ensures c.kids[a][i] in s'.marks || Pending(s', a, i)
      {
        if a !in Sources(c, s.marks) {
          assert Here(s'.slots, s'.markers[t], a, i);
        } else if c.kids[a][i] !in s.marks {
          assert Pending(s, a, i);
          if t' :| t' in s.markers && t' != t && MarkerHas(s.markers[t'], a, i) {
            assert s'.markers[t'] == s.markers[t'];
          } else {
            assert Here(s.slots, s.markers[t], a, i);
          }
        }
      }
    }
  }

  lemma SameWorkKept(c: Config, slots: seq<Slot>, m: Marker, m': Marker, marks: set<nat>)
    requires m'.local == m.local && m'.cur == m.cur
    ensures HereKept(c, slots, m, slots, m', marks)
  {
  }

  lemma TakeKept(c: Config, s: State, m: Marker, a: Action)
    requires MarkerOk(c, s.slots, s.marks, m) && MarkerEnabled(c, s, m, a) && a.Take?
    ensures HereKept(c, s.slots, m, SlotsAfter(c, s, m, a), Moved(c, s, m, a), s.marks)
  {
    var slots', m' := SlotsAfter(c, s, m, a), Moved(c, s, m, a);
    forall b, i | Here(s.slots, m, b, i)
      ensures Here(slots', m', b, i)
    {
      if j :| 0 <= j < |m.local| && Covers(m.local[j], b, i) {
        assert Covers(m'.local[j], b, i);
      } else {
        assert m.cur == None;
        var j :| 0 <= j < |s.slots| && s.slots[j].live && Covers(s.slots[j].entry, b, i);
        if j == m.pc.p {
          assert Covers(m'.local[|m.local|], b, i);
        } else {
          assert slots'[j] == s.slots[j];
        }
      }
    }
  }

  lemma GiveBackKept(c: Config, s: State, m: Marker, a: Action)
    requires MarkerEnabled(c, s, m, a) && a.GiveBack? && !Drops(c, s, m, a)
    ensures HereKept(c, s.slots, m, SlotsAfter(c, s, m, a), Moved(c, s, m, a), s.marks)
  {
    var slots', m' := SlotsAfter(c, s, m, a), Moved(c, s, m, a);
    forall b, i | Here(s.slots, m, b, i)
      ensures Here(slots', m', b, i)
    {
      if j :| 0 <= j < |s.slots| && s.slots[j].live && Covers(s.slots[j].entry, b, i) {
        assert slots'[j] == s.slots[j];
      } else {
        var j :| 0 <= j < |m.local| && Covers(m.local[j], b, i);
        if j < a.n {
          assert slots'[|s.slots| + j] == Slot(m.local[j], true);
        } else {
          assert m'.local[j - a.n] == m.local[j];
        }
      }
    }
  }

  /** Pop, Finish and Split only move words between the local stack and the current entry. */
  lemma MoveKept(c: Config, s: State, m: Marker, a: Action)
    requires MarkerEnabled(c, s, m, a) && (a.Pop? || a.Finish? || a.Split?)
    ensures HereKept(c, s.slots, m, s.slots, Moved(c, s, m, a), s.marks)
  {
    hide SlotHas;
    var m' := Moved(c, s, m, a);
    forall b, i | MarkerHas(m, b, i)
      ensures MarkerHas(m', b, i)
    {
      if j :| 0 <= j < |m.local| && Covers(m.local[j], b, i) {
        if j < |m'.local| {
          assert m'.local[j] == m.local[j];
        }
      } else if a.Split? && (if a.front then i < a.end else i >= a.mid) {
        assert Covers(m'.local[|m.local|], b, i);
      }
    }
  }

  /** A word whose target is marked already needs no more scanning. */
  lemma ChildKept(c: Config, s: State, m: Marker, a: Action)
    requires MarkerEnabled(c, s, m, a) && a.Child?
    ensures HereKept(c, s.slots, m, s.slots, Moved(c, s, m, a), s.marks)
  {
    hide SlotHas;
    var m' := Moved(c, s, m, a);
    forall b, i | b in c.kids && 0 <= i < |c.kids[b]| && Here(s.slots, m, b, i)
      ensures Here(s.slots, m', b, i) || c.kids[b][i] in s.marks
    {
      assert m'.local == m.local;
    }
  }

  /** Marking a target: it is marked now, and if it was not before, it is pushed. */
  lemma SetMarkKept(c: Config, s: State, m: Marker, a: Action)
    requires MarkerOk(c, s.slots, s.marks, m) && MarkerEnabled(c, s, m, a) && a.SetMark? && !Drops(c, s, m, a)
    ensures var marks', m' := MarksAfter(c, s, m, a), Moved(c, s, m, a);
            HereKept(c, s.slots, m, s.slots, m', marks') && NewHere(c, s.marks, marks', s.slots, m')
  {
    hide SlotHas, DeadBelow, Owned;
    var marks', m' := MarksAfter(c, s, m, a), Moved(c, s, m, a);
    forall b, i | b in c.kids && 0 <= i < |c.kids[b]| && Here(s.slots, m, b, i)
      ensures Here(s.slots, m', b, i) || c.kids[b][i] in marks'
    {
      if j :| 0 <= j < |m.local| && Covers(m.local[j], b, i) {
        assert m'.local[j] == m.local[j];
      }
    }
    forall k, i | k in marks' - s.marks && k in c.kids && 0 <= i < |c.kids[k]|
      ensures Here(s.slots, m', k, i)
    {
      assert Covers(m'.local[|m.local|], k, i);
    }
  }

  /** No step that drops nothing loses work. */
  lemma WorkKept(c: Config, s: State, m: Marker, a: Action)
    requires MarkerOk(c, s.slots, s.marks, m) && MarkerEnabled(c, s, m, a) && !Drops(c, s, m, a)
    ensures var slots', marks', m' := SlotsAfter(c, s, m, a), MarksAfter(c, s, m, a), Moved(c, s, m, a);
            HereKept(c, s.slots, m, slots', m', marks') && NewHere(c, s.marks, marks', slots', m')
  {
    hide MarkerOk, HereKept, NewHere, Marked, Drops;
    var slots', m' := SlotsAfter(c, s, m, a), Moved(c, s, m, a);
    if a.SetMark? {
      SetMarkKept(c, s, m, a);
    } else {
      NothingNew(c, s.marks, slots', m');
      if a.Take? {
        TakeKept(c, s, m, a);
      } else if a.GiveBack? {
        GiveBackKept(c, s, m, a);
      } else if a.Pop? || a.Finish? || a.Split? {
        MoveKept(c, s, m, a);
      } else if a.Child? {
        ChildKept(c, s, m, a);
      } else {
        SameWorkKept(c, s.slots, m, m', s.marks);
      }
    }
  }

  lemma StepCovered(c: Config, s: State, a: Action)
    requires GoodConfig(c) && Shape(c, s) && Covered(c, s) && Enabled(c, s, a)
    ensures Covered(c, Apply(c, s, a))
  {
    hide MarkerOk, HereKept, NewHere, Here, Covered, Moved, SlotsAfter, FirstAfter, Drops, MarkerEnabled, GoodConfig,
         Owned;
    var s' := Apply(c, s, a);
    if a == StopHelp {
      SameCovered(c, s, s');
    } else {
      var m := s.markers[a.t];
      if !Drops(c, s, m, a) {
        WorkKept(c, s, m, a);
      }
      CoverStep(c, s, s', a.t);
    }
  }

  lemma SameCovered(c: Config, s: State, s': State)
    requires Covered(c, s) && s'.markers == s.markers && s'.slots == s.slots && s'.marks == s.marks
    requires s'.invalid == s.invalid
    ensures Covered(c, s')
  {
    assert forall b, i :: Pending(s, b, i) ==> Pending(s', b, i);
  }

  lemma NothingNew(c: Config, marks: set<nat>, slots': seq<Slot>, m': Marker)
    ensures NewHere(c, marks, marks, slots', m')
  {
  }

  // ---------- the end

  lemma StepDone(c: Config, s: State, a: Action)
    requires GoodConfig(c) && Shape(c, s) && Counted(s) && DoneOk(s) && Enabled(c, s, a)
    ensures DoneOk(Apply(c, s, a))
  {
    hide Shape, Counted, GoodConfig, Idle, MarkerEnabled, Moved, SlotsAfter, FirstAfter, Drops, MarksAfter;
    if a != StopHelp {
      ShapeOf(c, s, a.t);
      var m := s.markers[a.t];
      if a.Leave? {
        LeaveDone(c, s, a.t);
      } else {
        LeftBefore(c, s, m, a);
        if t :| t in s.markers && s.markers[t].pc == Left {
          AfterDone(c, s, m, a);
        }
      }
    }
  }

  lemma ShapeOf(c: Config, s: State, t: nat)
    requires Shape(c, s) && t in s.markers
    ensures MarkerOk(c, s.slots, s.marks, s.markers[t]) && DeadBelow(s.slots, s.first)
  {
  }

  lemma LeftBefore(c: Config, s: State, m: Marker, a: Action)
    requires MarkerEnabled(c, s, m, a) && !a.Leave?
    ensures Moved(c, s, m, a).pc != Left
  {
  }

  /** The leaving marker saw no active marker and an empty stack. */
  lemma LeaveDone(c: Config, s: State, t: nat)
    requires Shape(c, s) && Counted(s) && Enabled(c, s, Leave(t))
    ensures var s' := Apply(c, s, Leave(t));
            s'.first == |s'.slots| && forall u :: u in s'.markers ==> Idle(s'.markers[u])
  {
    hide Counted;
    NoneBusy(s);
    var s' := Apply(c, s, Leave(t));
    forall u | u in s'.markers
      ensures Idle(s'.markers[u])
    {
      assert MarkerOk(c, s.slots, s.marks, s.markers[u]);
    }
  }

  /** When nothing is left to do no step makes new work. */
  lemma AfterDone(c: Config, s: State, m: Marker, a: Action)
    requires MarkerEnabled(c, s, m, a) && MarkerOk(c, s.slots, s.marks, m) && s.first == |s.slots| && Idle(m)
    requires DeadBelow(s.slots, s.first)
    ensures FirstAfter(s, m, a) == |SlotsAfter(c, s, m, a)| && Idle(Moved(c, s, m, a))
  {
    hide Owned;
  }

  // ---------- nothing is overlooked

  /** A watching marker still watches after its own step, and so does one that moved the index or
      brought new slots. */
  lemma WatchesOn(c: Config, s: State, m: Marker, a: Action)
    requires MarkerEnabled(c, s, m, a) && MarkerOk(c, s.slots, s.marks, m)
    requires FirstAfter(s, m, a) < |SlotsAfter(c, s, m, a)|
    requires Watches(s.first, m) || FirstAfter(s, m, a) != s.first || |SlotsAfter(c, s, m, a)| != |s.slots|
    ensures Watches(FirstAfter(s, m, a), Moved(c, s, m, a))
  {
    hide Owned;
  }

  lemma StepWatched(c: Config, s: State, a: Action)
    requires Shape(c, s) && Watched(s) && Enabled(c, s, a)
    ensures Watched(Apply(c, s, a))
  {
    hide Moved, SlotsAfter, FirstAfter, Drops, MarksAfter, MarkerEnabled, MarkerOk, Owned, Watches, DeadBelow;
    var s' := Apply(c, s, a);
    if a != StopHelp && s'.first < |s'.slots| {
      var m := s.markers[a.t];
      if Watches(s.first, m) || s'.first != s.first || |s'.slots| != |s.slots| {
        WatchesOn(c, s, m, a);
        assert Watches(s'.first, s'.markers[a.t]);
      } else {
        var t :| t in s.markers && Watches(s.first, s.markers[t]);
        assert s'.markers[t] == s.markers[t];
      }
    }
  }

  /** With no active marker the index is at the stack top. */
  lemma NothingOverlooked(s: State)
    requires Counted(s) && Watched(s) && s.active == 0
    ensures |s.slots| <= s.first
  {
    NoneBusy(s);
  }

  // ---------- soundness

  lemma StepSound(c: Config, s: State, a: Action)
    requires GoodConfig(c) && Shape(c, s) && Sound(c, s) && Enabled(c, s, a)
    ensures Sound(c, Apply(c, s, a))
  {
    hide Moved, SlotsAfter, FirstAfter, Drops, DeadBelow, GoodConfig;
    var s' := Apply(c, s, a);
    if a.SetMark? {
      var m := s.markers[a.t];
      assert MarkerOk(c, s.slots, s.marks, m);
      var e := m.cur.value;
      forall M | ClosedMarks(c, M)
        ensures s'.marks <= M
      {
        assert e.area in Sources(c, M);
        assert c.kids[e.area][e.lo] in M;
      }
    } else {
      assert s'.marks == s.marks;
    }
  }

  // ---------- every run

  lemma StepInv(c: Config, s: State, a: Action)
    requires GoodConfig(c) && Inv(c, s) && Enabled(c, s, a)
    ensures Inv(c, Apply(c, s, a))
  {
    hide Shape, Counted, Covered, DoneOk, Watched, Sound, Apply, Enabled, GoodConfig;
    StepWatched(c, s, a);
    StepShape(c, s, a);
    StepCounted(c, s, a);
    StepCovered(c, s, a);
    StepDone(c, s, a);
    StepSound(c, s, a);
  }

  lemma {:induction false} RunInv(c: Config, states: seq<State>, actions: seq<Action>, n: nat)
    requires GoodConfig(c) && IsRun(c, states, actions) && n < |states|
    ensures Inv(c, states[n])
  {
    if n == 0 {
      InitInv(c);
    } else {
      RunInv(c, states, actions, n - 1);
      StepInv(c, states[n - 1], actions[n - 1]);
    }
  }

  lemma NothingPending(s: State, a: nat, i: int)
    requires DoneOk(s) && DeadBelow(s.slots, s.first) && exists t :: t in s.markers && s.markers[t].pc == Left
    ensures !Pending(s, a, i)
  {
    forall t | t in s.markers ensures !MarkerHas(s.markers[t], a, i) { assert Idle(s.markers[t]); }
  }

  /** Once marker 0 has left without an overflow the marks are closed. */
  lemma LeftExact(c: Config, s: State)
    requires Inv(c, s) && 0 in s.markers && s.markers[0].pc == Left && !s.invalid
    ensures ClosedMarks(c, s.marks)
  {
    forall a, i | a in Sources(c, s.marks) && a in c.kids && 0 <= i < |c.kids[a]|
      ensures c.kids[a][i] in s.marks
    {
      NothingPending(s, a, i);
    }
  }

  /** At any time the marks are part of every closed set. */
  lemma MarksLeast(c: Config, s: State)
    requires Inv(c, s)
    ensures c.marks0 <= s.marks && forall M :: ClosedMarks(c, M) ==> s.marks <= M
  {
  }

  /** In every interleaving, when the marker that started the phase returns, either the mark
      state is invalid or every entry ever pushed was scanned: whatever the starting entries and
      the newly marked objects point to is marked, and the marks are the least such set. */
  lemma ParallelMarkExact(c: Config, states: seq<State>, actions: seq<Action>)
    requires GoodConfig(c) && IsRun(c, states, actions)
    requires var s := states[|states| - 1]; 0 in s.markers && s.markers[0].pc == Left && !s.invalid
    ensures ClosedMarks(c, states[|states| - 1].marks)
    ensures forall M :: ClosedMarks(c, M) ==> states[|states| - 1].marks <= M
  {
    hide Inv, ClosedMarks;
    RunInv(c, states, actions, |states| - 1);
    LeftExact(c, states[|states| - 1]);
    MarksLeast(c, states[|states| - 1]);
  }

  /** When the helper count is 0 after marker 0 left, no marker is in the phase any more, and
      GC_first_nonempty is above the stack top, as the caller asserts. */
  lemma PhaseOver(c: Config, states: seq<State>, actions: seq<Action>)
    requires GoodConfig(c) && IsRun(c, states, actions)
    requires var s := states[|states| - 1]; 0 in s.markers && s.markers[0].pc == Left && s.helpers == 0
    ensures var s := states[|states| - 1];
            s.first == |s.slots| && forall t :: t in s.markers ==> s.markers[t].pc == Left || s.markers[t].pc == Outside
  {
    var s := states[|states| - 1];
    RunInv(c, states, actions, |states| - 1);
    assert InPhaseIds(s) == {};
    forall t | t in s.markers
      ensures !InPhase(s.markers[t].pc)
    {
      assert t !in InPhaseIds(s);
    }
  }

  // ---------- room on the stacks

  /** A marker's entries fit its local stack; it steals at most six. */
  predicate Fits(c: Config, m: Marker) {
    && |m.local| <= c.localSize
    && (m.pc.Steal? ==> |m.local| <= m.pc.n && |m.local| <= m.pc.max + 1 && m.pc.max <= 5)
    && (m.pc.Grab? ==> |m.local| <= m.pc.n <= m.pc.max <= 5)
    && (m.local != [] ==> m.pc.Steal? || m.pc.Grab? || m.pc.Mark? || m.pc.Test?)
  }

  ghost predicate Room(c: Config, s: State) {
    |s.slots| <= c.size && forall t :: t in s.markers ==> Fits(c, s.markers[t])
  }

  lemma FitsStep(c: Config, s: State, m: Marker, a: Action)
    requires c.localSize >= 6 && MarkerEnabled(c, s, m, a) && Fits(c, m) && |s.slots| <= c.size
    ensures Fits(c, Moved(c, s, m, a)) && |SlotsAfter(c, s, m, a)| <= c.size
  {
  }

  /** In every run no stack ever holds more than it has room for. */
  lemma {:induction false} RunRoom(c: Config, states: seq<State>, actions: seq<Action>, n: nat)
    requires GoodConfig(c) && IsRun(c, states, actions) && n < |states|
    ensures Room(c, states[n])
  {
    hide Fits, Moved, SlotsAfter, MarkerEnabled, FirstAfter, Drops, MarksAfter, ActiveChange;
    if n == 0 {
      InitFits(c);
    } else {
      RunRoom(c, states, actions, n - 1);
      var s, a := states[n - 1], actions[n - 1];
      if a != StopHelp { FitsStep(c, s, s.markers[a.t], a); }
    }
  }

  lemma InitFits(c: Config)
    requires GoodConfig(c)
    ensures Room(c, Init(c))
  {
  }

  /** A step drops entries only for want of room on the stack it pushes to. */
  lemma DropsWhenFull(c: Config, s: State, m: Marker, a: Action)
    requires MarkerEnabled(c, s, m, a) && Drops(c, s, m, a)
    ensures (a.SetMark? && |m.local| + 1 > c.localSize) || (a.GiveBack? && |s.slots| + a.n > c.size)
  {
  }

  /** The ith step of the run dropped entries. */
  ghost predicate DroppedAt(c: Config, states: seq<State>, actions: seq<Action>, i: nat) {
    && i < |states| && i < |actions| && Enabled(c, states[i], actions[i]) && actions[i] != StopHelp
    && Drops(c, states[i], states[i].markers[actions[i].t], actions[i])
  }

  /** The mark state is invalid exactly if some step dropped entries, and the stack counts as too small exactly if
      one of these gave back. */
  lemma {:induction false} FlagsExact(c: Config, states: seq<State>, actions: seq<Action>, n: nat)
    requires 0 in c.ids && IsRun(c, states, actions) && n < |states|
    ensures states[n].invalid <==> exists i: nat :: i < n && DroppedAt(c, states, actions, i)
    ensures states[n].tooSmall <==> exists i: nat :: i < n && DroppedAt(c, states, actions, i) && actions[i].GiveBack?
  {
    hide Drops, Enabled;
    if n > 0 {
      FlagsExact(c, states, actions, n - 1);
      FlagsStep(c, states[n - 1], actions[n - 1]);
      assert states[n] == Apply(c, states[n - 1], actions[n - 1]);
      if DroppedAt(c, states, actions, n - 1) { assert states[n].invalid; }
    }
  }

  lemma FlagsStep(c: Config, s: State, a: Action)
    requires Enabled(c, s, a)
    ensures var dropped := a != StopHelp && Drops(c, s, s.markers[a.t], a);
            && (Apply(c, s, a).invalid <==> s.invalid || dropped)
            && (Apply(c, s, a).tooSmall <==> s.tooSmall || (dropped && a.GiveBack?))
  {
    hide Drops, Moved, SlotsAfter, MarksAfter;
  }

  /** A marker that leaves in any run leaves no work behind, even if others join after it. */
  lemma NothingAfterLeaving(c: Config, states: seq<State>, actions: seq<Action>, n: nat, t: nat)
    requires GoodConfig(c) && IsRun(c, states, actions) && n < |states|
    requires t in states[n].markers && states[n].markers[t].pc == Left
    ensures forall j :: 0 <= j < |states[n].slots| ==> !states[n].slots[j].live
    ensures forall u :: u in states[n].markers ==> states[n].markers[u].local == [] && states[n].markers[u].cur == None
  {
    RunInv(c, states, actions, n);
  }

  // ---------- the active count may rise again

  /** Three markers and nothing to mark. */
  function Idlers(): Config {
    Config(map[], {}, 0, 6, {}, [], {0, 1, 2})
  }

  function IdlersAt(p0: Pc, p1: Pc, p2: Pc, active: int, helpers: int): State {
    State(map[0 := Marker(p0, 0, [], None), 1 := Marker(p1, 0, [], None), 2 := Marker(p2, 0, [], None)],
          [], 0, active, helpers, true, false, false, {})
  }

  ghost predicate StepsTo(c: Config, s: State, a: Action, s': State) {
    Enabled(c, s, a) && s' == Apply(c, s, a)
  }

  lemma IdlersStart()
    ensures GoodConfig(Idlers()) && Init(Idlers()) == IdlersAt(Top, Outside, Outside, 1, 1)
  {
    var s := Init(Idlers());
    assert s.markers == IdlersAt(Top, Outside, Outside, 1, 1).markers;
  }

  lemma FirstLooks()
    ensures StepsTo(Idlers(), IdlersAt(Top, Outside, Outside, 1, 1), Join(1), IdlersAt(Top, Top, Outside, 2, 2))
    ensures StepsTo(Idlers(), IdlersAt(Top, Top, Outside, 2, 2), ReadFirst(0), IdlersAt(LoadTop, Top, Outside, 2, 2))
  {
  }

  lemma FirstGoesIdle()
    ensures StepsTo(Idlers(), IdlersAt(LoadTop, Top, Outside, 2, 2), ReadTop(0), IdlersAt(Lock, Top, Outside, 2, 2))
    ensures StepsTo(Idlers(), IdlersAt(Lock, Top, Outside, 2, 2), LookAgain(0), IdlersAt(Wait, Top, Outside, 1, 2))
  {
  }

  lemma SecondLooks()
    ensures StepsTo(Idlers(), IdlersAt(Wait, Top, Outside, 1, 2), ReadFirst(1), IdlersAt(Wait, LoadTop, Outside, 1, 2))
    ensures StepsTo(Idlers(), IdlersAt(Wait, LoadTop, Outside, 1, 2), ReadTop(1), IdlersAt(Wait, Lock, Outside, 1, 2))
  {
  }

  lemma SecondGoesIdle()
    ensures StepsTo(Idlers(), IdlersAt(Wait, Lock, Outside, 1, 2), LookAgain(1), IdlersAt(Wait, Wait, Outside, 0, 2))
  {
  }

  lemma ThirdJoins()
    ensures StepsTo(Idlers(), IdlersAt(Wait, Wait, Outside, 0, 2), Leave(1), IdlersAt(Wait, Left, Outside, 0, 1))
    ensures StepsTo(Idlers(), IdlersAt(Wait, Left, Outside, 0, 1), Join(2), IdlersAt(Wait, Left, Top, 1, 2))
  {
  }

  /** Marker 1 finds everyone inactive and leaves, and marker 2 joins before marker 0 wakes up.
      The active count returns to 0 and then becomes 1 again in the same mark phase. */
  lemma ActiveCountRisesAgain()
    ensures exists c: Config, states: seq<State>, actions: seq<Action> ::
              GoodConfig(c) && IsRun(c, states, actions) && |states| == 10
              && states[7].active == 0 && states[9].active == 1
  {
    hide Apply, Enabled, Init, GoodConfig;
    IdlersStart();
    FirstLooks();
    FirstGoesIdle();
    SecondLooks();
    SecondGoesIdle();
    ThirdJoins();
    var actions := [Join(1), ReadFirst(0), ReadTop(0), LookAgain(0), ReadFirst(1), ReadTop(1), LookAgain(1), Leave(1),
                    Join(2)];
    var states := [IdlersAt(Top, Outside, Outside, 1, 1), IdlersAt(Top, Top, Outside, 2, 2),
                   IdlersAt(LoadTop, Top, Outside, 2, 2),
                   IdlersAt(Lock, Top, Outside, 2, 2), IdlersAt(Wait, Top, Outside, 1, 2),
                   IdlersAt(Wait, LoadTop, Outside, 1, 2),
                   IdlersAt(Wait, Lock, Outside, 1, 2), IdlersAt(Wait, Wait, Outside, 0, 2),
                   IdlersAt(Wait, Left, Outside, 0, 1),
                   IdlersAt(Wait, Left, Top, 1, 2)];
    forall i | 0 <= i < |actions|
      ensures StepsTo(Idlers(), states[i], actions[i], states[i + 1])
    {
    }
    assert IsRun(Idlers(), states, actions);
    assert states[7].active == 0 && states[9].active == 1;
  }

  /** A marker could still join. */
  ghost predicate CanRise(s: State) {
    s.helpWanted && exists t :: t in s.markers && s.markers[t].pc == Outside
  }

  /** With count 0 only joining, leaving and withdrawing the call for help are left: no waiting marker
      can be waked. */
  lemma IdleSteps(c: Config, s: State, a: Action)
    requires Inv(c, s) && Enabled(c, s, a) && s.active == 0
    ensures a.Join? || a.Leave? || a.StopHelp?
  {
    hide Shape, Covered, DoneOk, Sound, Counted, Watched;
    NoneBusy(s);
    NothingOverlooked(s);
  }

  /** The next step may raise a count of 0 exactly if it can rise. */
  lemma RisesNext(c: Config, s: State)
    requires Inv(c, s) && s.active == 0
    ensures (exists a :: Enabled(c, s, a) && Apply(c, s, a).active != 0) <==> CanRise(s)
  {
    hide Inv, Moved, SlotsAfter, Drops, MarksAfter, FirstAfter;
    if CanRise(s) {
      var t :| t in s.markers && s.markers[t].pc == Outside;
      assert Enabled(c, s, Join(t));
    }
    if a :| Enabled(c, s, a) && Apply(c, s, a).active != 0 {
      IdleSteps(c, s, a);
    }
  }

  /** A count of 0 that cannot rise stays so. */
  lemma StaysLow(c: Config, s: State, a: Action)
    requires Inv(c, s) && Enabled(c, s, a) && s.active == 0 && !CanRise(s)
    ensures Apply(c, s, a).active == 0 && !CanRise(Apply(c, s, a))
  {
    hide Inv, Drops, MarksAfter;
    IdleSteps(c, s, a);
  }

  ghost predicate Enables(c: Config, s: State, actions: seq<Action>)
    decreases |actions|
  {
    actions == [] || (Enabled(c, s, actions[0]) && Enables(c, Apply(c, s, actions[0]), actions[1..]))
  }

  ghost function After(c: Config, s: State, actions: seq<Action>): State
    requires Enables(c, s, actions)
    decreases |actions|
  {
    if actions == [] then s else After(c, Apply(c, s, actions[0]), actions[1..])
  }

  /** The phase is over: its starter has returned, no marker is left in it, and none can join. */
  predicate Over(s: State) {
    0 in s.markers && s.markers[0].pc == Left && s.helpers == 0 && !s.helpWanted
  }

  /** The schedule is enabled step by step from the start of the phase and ends it. */
  ghost predicate Completes(c: Config, schedule: seq<Action>) {
    0 in c.ids && Enables(c, Init(c), schedule) && Over(After(c, Init(c), schedule))
  }

  predicate NoneGivenBack(schedule: seq<Action>) {
    forall a :: a in schedule ==> !a.GiveBack?
  }

  lemma {:induction false} RunStaysLow(c: Config, s: State, actions: seq<Action>)
    requires GoodConfig(c) && Inv(c, s) && Enables(c, s, actions) && s.active == 0 && !CanRise(s)
    ensures After(c, s, actions).active == 0
    decreases |actions|
  {
    hide Inv, GoodConfig, CanRise, Enabled, Apply;
    if actions != [] {
      StaysLow(c, s, actions[0]);
      StepInv(c, s, actions[0]);
      RunStaysLow(c, Apply(c, s, actions[0]), actions[1..]);
    }
  }

  /** Once the active count is 0 it stays 0 in every run from there exactly if no marker can still join. */
  lemma StaysZeroIff(c: Config, s: State)
    requires GoodConfig(c) && Inv(c, s) && s.active == 0
    ensures (forall actions :: Enables(c, s, actions) ==> After(c, s, actions).active == 0) <==> !CanRise(s)
  {
    hide Inv, GoodConfig, CanRise, Enabled, Apply;
    RisesNext(c, s);
    if CanRise(s) {
      var a :| Enabled(c, s, a) && Apply(c, s, a).active != 0;
      assert Enables(c, Apply(c, s, a), [a][1..]);
      assert Enables(c, s, [a]) && After(c, s, [a]) == Apply(c, s, a);
    } else {
      forall actions | Enables(c, s, actions)
        ensures After(c, s, actions).active == 0
      {
        RunStaysLow(c, s, actions);
      }
    }
  }
}
