/**
 The end of a mark phase, in tool/gec/backend/c/boehm_gc/mark.c: from every state that a phase can reach some
 run brings it to its end, one marker after the other.
 */
module Completion {
  import opened Wrappers
  import opened ParallelMark
  import opened ParallelPhase

  /** What the marker read just before still holds. */
  predicate Fresh(slots: seq<Slot>, marks: set<nat>, m: Marker) {
    && (m.pc.Test? ==> m.pc.target !in marks)
    && (m.pc.Grab? ==> m.pc.p < |slots| && slots[m.pc.p].live)
  }

  /** What a busy marker t does next, by itself. */
  function Next(m: Marker, t: nat): Action {
    match m.pc
    case Top => ReadFirst(t)
    case Cas(_) => CompareAndSwap(t)
    case LoadTop => ReadTop(t)
    case Lock => LookAgain(t)
    case Steal(_, _, _, _) => StealNext(t)
    case Grab(_, _, _, _) => Take(t, 0)
    case Mark =>
      if m.cur.Some? then (if m.cur.value.lo < m.cur.value.hi then Child(t) else Finish(t))
      else if m.local == [] then LocalEmpty(t) else Pop(t)
    case Test(_) => SetMark(t, 0)
    case _ => Leave(t)
  }

  // ---------- what these steps lower

  function Words(e: Entry): nat {
    if e.lo < e.hi then e.hi - e.lo else 0
  }

  function LocalWork(local: seq<Entry>): nat {
    if local == [] then 0 else LocalWork(local[..|local| - 1]) + Words(local[|local| - 1]) + 2
  }

  function SlotWork(slots: seq<Slot>): nat {
    if slots == [] then 0
    else
      var last := slots[|slots| - 1];
      SlotWork(slots[..|slots| - 1]) + if last.live then Words(last.entry) + 3 else 0
  }

  /** The work on the stacks and in the hands of the marker. */
  function Work(slots: seq<Slot>, m: Marker): nat {
    SlotWork(slots) + LocalWork(m.local) + if m.cur.Some? then Words(m.cur.value) + 1 else 0
  }

  /** The slots it has not looked at. */
  function Ahead(slots: seq<Slot>, m: Marker): nat {
    var at := if m.pc.Steal? || m.pc.Grab? then m.pc.p else m.first;
    if at <= |slots| then |slots| - at else 0
  }

  /** How far it is from its next piece of work or from the end. */
  function Distance(m: Marker): nat {
    match m.pc
    case Steal(p, end, n, _) => if n == 0 && p < end then 5 else 20
    case Mark => 10
    case Top => 9
    case Cas(_) => 8
    case LoadTop => 7
    case Lock => 6
    case Grab(_, _, _, _) => 4
    case _ => 3
  }

  /** Less work, or as much with fewer slots ahead, or these the same and closer. */
  predicate Nearer(slots: seq<Slot>, m: Marker, slots': seq<Slot>, m': Marker) {
    || Work(slots', m') < Work(slots, m)
    || (Work(slots', m') == Work(slots, m) &&
        (Ahead(slots', m') < Ahead(slots, m) ||
         (Ahead(slots', m') == Ahead(slots, m) && Distance(m') < Distance(m))))
  }

  lemma {:induction false} TakenWork(slots: seq<Slot>, p: nat)
    requires p < |slots| && slots[p].live
    ensures SlotWork(slots[p := Slot(slots[p].entry, false)]) + Words(slots[p].entry) + 3 == SlotWork(slots)
  {
    var slots' := slots[p := Slot(slots[p].entry, false)];
    var n := |slots| - 1;
    if p == n {
      assert slots'[..n] == slots[..n];
    } else {
      TakenWork(slots[..n], p);
      assert slots'[..n] == slots[..n][p := Slot(slots[p].entry, false)];
    }
  }

  lemma PushedWork(local: seq<Entry>, e: Entry)
    ensures LocalWork(local + [e]) == LocalWork(local) + Words(e) + 2
  {
    assert (local + [e])[..|local|] == local;
  }

  /** Looking for work. */
  lemma LookingNearer(c: Config, s: State, m: Marker, t: nat)
    requires MarkerOk(c, s.slots, s.marks, m) && DeadBelow(s.slots, s.first)
    requires m.pc == Top || m.pc.Cas? || m.pc == LoadTop || m.pc == Lock || m.pc.Steal?
    ensures MarkerEnabled(c, s, m, Next(m, t))
    ensures Nearer(s.slots, m, s.slots, Moved(c, s, m, Next(m, t)))
  {
    hide Owned, DeadBelow;
  }

  lemma TakeNearer(c: Config, s: State, m: Marker, t: nat)
    requires MarkerOk(c, s.slots, s.marks, m) && m.pc.Grab?
    ensures MarkerEnabled(c, s, m, Next(m, t))
    ensures s.slots[m.pc.p].live ==> Nearer(s.slots, m, SlotsAfter(c, s, m, Next(m, t)), Moved(c, s, m, Next(m, t)))
  {
    hide Owned, DeadBelow;
    if s.slots[m.pc.p].live { TakenWork(s.slots, m.pc.p); }
    PushedWork(m.local, s.slots[m.pc.p].entry);
  }

  /** Marking. */
  lemma MarkingNearer(c: Config, s: State, m: Marker, t: nat)
    requires MarkerOk(c, s.slots, s.marks, m) && m.pc == Mark
    ensures MarkerEnabled(c, s, m, Next(m, t))
    ensures Nearer(s.slots, m, s.slots, Moved(c, s, m, Next(m, t)))
  {
    hide DeadBelow;
  }

  lemma TestMarks(c: Config, s: State, m: Marker, t: nat)
    requires GoodConfig(c) && MarkerOk(c, s.slots, s.marks, m) && m.pc.Test?
    ensures MarkerEnabled(c, s, m, SetMark(t, 0))
  {
    assert Owned(c, s.marks, m.cur.value);
    assert c.kids[m.cur.value.area][m.cur.value.lo] in c.kids;
  }

  /** What the next step of a busy marker does. */
  ghost predicate Onwards(slots: seq<Slot>, marks: set<nat>, m: Marker, slots': seq<Slot>, marks': set<nat>,
                          m': Marker) {
    && InPhase(m'.pc) && Fresh(slots', marks', m') && |slots'| == |slots|
    && if m.pc.Test? then marks' == marks + {m.pc.target}
       else marks' == marks && (Fresh(slots, marks, m) ==> Nearer(slots, m, slots', m'))
  }

  /** One step of a busy marker marks another object or brings it nearer. */
  lemma MarkerNearer(c: Config, s: State, m: Marker, t: nat)
    requires GoodConfig(c) && MarkerOk(c, s.slots, s.marks, m) && DeadBelow(s.slots, s.first) && Busy(m.pc)
    ensures var a := Next(m, t);
            && MarkerEnabled(c, s, m, a) && a != StopHelp && a.t == t && !a.GiveBack?
            && Onwards(s.slots, s.marks, m, SlotsAfter(c, s, m, a), MarksAfter(c, s, m, a), Moved(c, s, m, a))
  {
    hide Nearer, MarkerOk, Owned, DeadBelow, GoodConfig;
    match m.pc {
      case Mark => MarkingNearer(c, s, m, t);
      case Test(_) => TestMarks(c, s, m, t);
      case Grab(_, _, _, _) => TakeNearer(c, s, m, t);
      case _ => LookingNearer(c, s, m, t);
    }
  }

  lemma BusyStep(c: Config, s: State, t: nat)
    requires GoodConfig(c) && Inv(c, s) && t in s.markers && Busy(s.markers[t].pc)
    ensures var a := Next(s.markers[t], t);
            && Enabled(c, s, a) && !a.GiveBack? && Inv(c, Apply(c, s, a)) && Apply(c, s, a).helpWanted == s.helpWanted
            && var s' := Apply(c, s, a);
               && s.marks <= s'.marks <= c.kids.Keys && OnlyMoved(s, s', t)
               && Onwards(s.slots, s.marks, s.markers[t], s'.slots, s'.marks, s'.markers[t])
  {
    hide Inv, GoodConfig, Nearer, Moved, SlotsAfter, MarksAfter, Drops, MarkerEnabled, Fresh, Onwards, MarkerOk,
         DeadBelow;
    InvShape(c, s);
    ShapeOf(c, s, t);
    MarkerNearer(c, s, s.markers[t], t);
    StepInv(c, s, Next(s.markers[t], t));
    InvShape(c, Apply(c, s, Next(s.markers[t], t)));
    MarksGrow(c, s, Next(s.markers[t], t));
  }

  lemma MarksGrow(c: Config, s: State, a: Action)
    requires Enabled(c, s, a) && a != StopHelp
    ensures s.marks <= Apply(c, s, a).marks
  {
    hide Moved, SlotsAfter, Drops;
  }

  lemma InvShape(c: Config, s: State)
    requires Inv(c, s)
    ensures Shape(c, s) && s.marks <= c.kids.Keys
  {
    hide Covered, DoneOk, Sound, Counted, Watched;
  }

  /** Of the markers only t moved. */
  predicate OnlyMoved(s: State, s': State, t: nat) {
    && s'.markers.Keys == s.markers.Keys && t in s.markers && s'.helpWanted == s.helpWanted
    && forall u :: u in s.markers && u != t ==> s'.markers[u] == s.markers[u]
  }

  /** A marker that has just moved comes to wait. */
  lemma {:induction false} FreshToWait(c: Config, s: State, t: nat) returns (acts: seq<Action>)
    requires GoodConfig(c) && Inv(c, s) && t in s.markers && InPhase(s.markers[t].pc)
    requires Fresh(s.slots, s.marks, s.markers[t])
    ensures Enables(c, s, acts) && NoneGivenBack(acts)
    ensures var s' := After(c, s, acts); Inv(c, s') && OnlyMoved(s, s', t) && s'.markers[t].pc == Wait
    decreases c.kids.Keys - s.marks, Work(s.slots, s.markers[t]), Ahead(s.slots, s.markers[t]), Distance(s.markers[t])
  {
    hide Inv, GoodConfig, Apply, Enabled, Work, Ahead, Distance;
    acts := [];
    if s.markers[t].pc != Wait {
      BusyStep(c, s, t);
      var a := Next(s.markers[t], t);
      var rest := FreshToWait(c, Apply(c, s, a), t);
      acts := [a] + rest;
      assert acts[1..] == rest;
    }
  }

  /** So does any marker of the phase. */
  lemma ToWait(c: Config, s: State, t: nat) returns (acts: seq<Action>)
    requires GoodConfig(c) && Inv(c, s) && t in s.markers && Busy(s.markers[t].pc)
    ensures Enables(c, s, acts) && NoneGivenBack(acts)
    ensures var s' := After(c, s, acts); Inv(c, s') && OnlyMoved(s, s', t) && s'.markers[t].pc == Wait
  {
    hide Inv, GoodConfig, Apply, Enabled, Fresh, Nearer;
    BusyStep(c, s, t);
    var a := Next(s.markers[t], t);
    var rest := FreshToWait(c, Apply(c, s, a), t);
    acts := [a] + rest;
    assert acts[1..] == rest;
  }

  lemma {:induction false} AfterBoth(c: Config, s: State, before: seq<Action>, more: seq<Action>)
    requires Enables(c, s, before) && Enables(c, After(c, s, before), more)
    ensures Enables(c, s, before + more) && After(c, s, before + more) == After(c, After(c, s, before), more)
    decreases |before|
  {
    hide Apply, Enabled;
    if before == [] {
      assert before + more == more;
    } else {
      AfterBoth(c, Apply(c, s, before[0]), before[1..], more);
      assert (before + more)[1..] == before[1..] + more;
    }
  }

  /** One marker after the other comes to wait or to leave. */
  lemma {:induction false} AllLeave(c: Config, s: State) returns (acts: seq<Action>)
    requires GoodConfig(c) && Inv(c, s)
    ensures Enables(c, s, acts) && NoneGivenBack(acts)
    ensures var s' := After(c, s, acts);
            && Inv(c, s') && InPhaseIds(s') == {} && s'.markers.Keys == s.markers.Keys
            && forall t :: t in s.markers && s.markers[t].pc != Outside ==> s'.markers[t].pc != Outside
    decreases BusyIds(s), InPhaseIds(s)
  {
    hide Inv, GoodConfig, Apply, Enabled, Moved;
    if t :| t in s.markers && Busy(s.markers[t].pc) {
      acts := ToWait(c, s, t);
      FewerLeft(s, After(c, s, acts), t);
      var rest := AllLeave(c, After(c, s, acts));
      AfterBoth(c, s, acts, rest);
      acts := acts + rest;
    } else if t :| t in s.markers && InPhase(s.markers[t].pc) {
      acts := WaitingLeaves(c, s, t);
      FewerLeft(s, After(c, s, acts), t);
      var rest := AllLeave(c, After(c, s, acts));
      AfterBoth(c, s, acts, rest);
      acts := acts + rest;
    } else {
      acts := [];
    }
  }

  lemma FewerLeft(s: State, s': State, t: nat)
    requires OnlyMoved(s, s', t) && InPhase(s.markers[t].pc) && !Busy(s'.markers[t].pc)
    ensures if Busy(s.markers[t].pc) then BusyIds(s') < BusyIds(s)
            else BusyIds(s') == BusyIds(s) && (!InPhase(s'.markers[t].pc) ==> InPhaseIds(s') < InPhaseIds(s))
  {
    if Busy(s.markers[t].pc) {
      assert t in BusyIds(s) && t !in BusyIds(s');
    } else if !InPhase(s'.markers[t].pc) {
      assert t in InPhaseIds(s) && t !in InPhaseIds(s');
    }
  }

  lemma WaitingLeaves(c: Config, s: State, t: nat) returns (acts: seq<Action>)
    requires GoodConfig(c) && Inv(c, s) && BusyIds(s) == {} && t in s.markers && s.markers[t].pc == Wait
    ensures acts == [Leave(t)] && Enables(c, s, acts)
    ensures var s' := After(c, s, acts); Inv(c, s') && OnlyMoved(s, s', t) && s'.markers[t].pc == Left
  {
    hide Shape, Covered, DoneOk, Sound, GoodConfig;
    acts := [Leave(t)];
    NothingOverlooked(s);
    StepInv(c, s, Leave(t));
    assert Enables(c, Apply(c, s, Leave(t)), acts[1..]);
  }

  lemma AllLeft(c: Config, s: State)
    requires Inv(c, s) && InPhaseIds(s) == {} && 0 in s.markers && s.markers[0].pc != Outside
    ensures s.helpers == 0 && s.markers[0].pc == Left
  {
    hide Shape, Covered, DoneOk, Sound, Watched;
    assert 0 !in InPhaseIds(s);
  }

  lemma StopsHelp(c: Config, s: State) returns (acts: seq<Action>)
    requires s.helpers == 0 && 0 in s.markers && s.markers[0].pc == Left
    ensures acts == [StopHelp] && Enables(c, s, acts) && Over(After(c, s, acts))
  {
    acts := [StopHelp];
    assert Enables(c, Apply(c, s, StopHelp), acts[1..]);
  }

  /** From any state of a phase that marker 0 has started, some run brings the phase to its end, and it gives
      nothing back. */
  lemma CanComplete(c: Config, s: State) returns (acts: seq<Action>)
    requires GoodConfig(c) && Inv(c, s) && 0 in s.markers && s.markers[0].pc != Outside
    ensures Enables(c, s, acts) && Over(After(c, s, acts)) && NoneGivenBack(acts)
  {
    hide Inv, GoodConfig, Apply, Enabled, InPhaseIds, Enables, After;
    acts := AllLeave(c, s);
    var s1 := After(c, s, acts);
    AllLeft(c, s1);
    var last := StopsHelp(c, s1);
    AfterBoth(c, s, acts, last);
    acts := acts + last;
  }

  lemma {:induction false} StarterStays(c: Config, states: seq<State>, actions: seq<Action>, n: nat)
    requires GoodConfig(c) && IsRun(c, states, actions) && n < |states|
    ensures 0 in states[n].markers && states[n].markers[0].pc != Outside
  {
    if n > 0 { StarterStays(c, states, actions, n - 1); }
  }

  /** Every state of every run of a phase can still come to the phase's end. */
  lemma NeverStuck(c: Config, states: seq<State>, actions: seq<Action>) returns (acts: seq<Action>)
    requires GoodConfig(c) && IsRun(c, states, actions)
    ensures var s := states[|states| - 1]; Enables(c, s, acts) && Over(After(c, s, acts)) && NoneGivenBack(acts)
  {
    hide Inv, GoodConfig;
    RunInv(c, states, actions, |states| - 1);
    StarterStays(c, states, actions, |states| - 1);
    acts := CanComplete(c, states[|states| - 1]);
  }

  /** Every phase has a run, step by step enabled, that ends it and gives nothing back; so there is a scheduler
      that completes every phase. */
  lemma SomeScheduler() returns (f: Config -> seq<Action>)
    ensures Completing(f) && Keeping(f)
  {
    f := (c: Config) => Chosen(c);
    forall c | GoodConfig(c)
      ensures Completes(c, f(c)) && NoneGivenBack(f(c))
    {
      InitInv(c);
      var acts := CanComplete(c, Init(c));
    }
  }

  ghost function Chosen(c: Config): seq<Action> {
    if acts :| GoodConfig(c) && Completes(c, acts) && NoneGivenBack(acts) then acts else []
  }

  // ---------- a phase that drops entries and marks nothing

  /** One marker, and two entries without words that fill the stack. */
  function Pair(): Config {
    Config(map[1 := []], {1}, 2, 6, {}, [Entry(1, 0, 0), Entry(1, 0, 0)], {0})
  }

  function PairAt(pc: Pc, at: nat, taken: nat, left: nat, first: nat, active: int, helpers: int, wanted: bool,
                  invalid: bool): State {
    var e := Entry(1, 0, 0);
    State(map[0 := Marker(pc, at, if left == 0 then [] else if left == 1 then [e] else [e, e], None)],
          [Slot(e, taken < 1), Slot(e, taken < 2)], first, active, helpers, wanted, invalid, invalid, {})
  }

  lemma PairStart()
    ensures GoodConfig(Pair()) && Init(Pair()) == PairAt(Top, 0, 0, 0, 0, 1, 1, true, false)
  {
    assert Init(Pair()).markers == PairAt(Top, 0, 0, 0, 0, 1, 1, true, false).markers;
  }

  lemma PairLooks()
    ensures StepsTo(Pair(), PairAt(Top, 0, 0, 0, 0, 1, 1, true, false), ReadFirst(0),
                    PairAt(LoadTop, 0, 0, 0, 0, 1, 1, true, false))
    ensures StepsTo(Pair(), PairAt(LoadTop, 0, 0, 0, 0, 1, 1, true, false), ReadTop(0),
                    PairAt(Steal(0, 2, 0, 1), 0, 0, 0, 0, 1, 1, true, false))
  {
  }

  lemma PairSteals(n: nat)
    requires n < 2
    ensures StepsTo(Pair(), PairAt(Steal(n, 2, n, 1), 0, n, n, 0, 1, 1, true, false), StealNext(0),
                    PairAt(Grab(n, 2, n, 1), 0, n, n, 0, 1, 1, true, false))
    ensures StepsTo(Pair(), PairAt(Grab(n, 2, n, 1), 0, n, n, 0, 1, 1, true, false), Take(0, 0),
                    PairAt(Steal(n + 1, 2, n + 1, 1), 0, n + 1, n + 1, 0, 1, 1, true, false))
  {
    var s := PairAt(Grab(n, 2, n, 1), 0, n, n, 0, 1, 1, true, false);
    var s' := PairAt(Steal(n + 1, 2, n + 1, 1), 0, n + 1, n + 1, 0, 1, 1, true, false);
    assert s'.slots == s.slots[n := Slot(s.slots[n].entry, false)];
    assert s'.markers[0].local == s.markers[0].local + [Entry(1, 0, 0)];
    assert s'.markers == s.markers[0 := s'.markers[0]];
  }

  lemma PairGivesBack()
    ensures StepsTo(Pair(), PairAt(Steal(2, 2, 2, 1), 0, 2, 2, 0, 1, 1, true, false), StealNext(0),
                    PairAt(Mark, 2, 2, 2, 0, 1, 1, true, false))
    ensures StepsTo(Pair(), PairAt(Mark, 2, 2, 2, 0, 1, 1, true, false), GiveBack(0, 2),
                    PairAt(Mark, 2, 2, 0, 0, 1, 1, true, true))
    ensures StepsTo(Pair(), PairAt(Mark, 2, 2, 0, 0, 1, 1, true, true), LocalEmpty(0),
                    PairAt(Top, 2, 2, 0, 0, 1, 1, true, true))
  {
  }

  lemma PairGoesIdle()
    ensures StepsTo(Pair(), PairAt(Top, 2, 2, 0, 0, 1, 1, true, true), ReadFirst(0),
                    PairAt(Cas(0), 2, 2, 0, 0, 1, 1, true, true))
    ensures StepsTo(Pair(), PairAt(Cas(0), 2, 2, 0, 0, 1, 1, true, true), CompareAndSwap(0),
                    PairAt(LoadTop, 2, 2, 0, 2, 1, 1, true, true))
    ensures StepsTo(Pair(), PairAt(LoadTop, 2, 2, 0, 2, 1, 1, true, true), ReadTop(0),
                    PairAt(Lock, 2, 2, 0, 2, 1, 1, true, true))
    ensures StepsTo(Pair(), PairAt(Lock, 2, 2, 0, 2, 1, 1, true, true), LookAgain(0),
                    PairAt(Wait, 2, 2, 0, 2, 0, 1, true, true))
  {
  }

  lemma PairLeaves()
    ensures StepsTo(Pair(), PairAt(Wait, 2, 2, 0, 2, 0, 1, true, true), Leave(0),
                    PairAt(Left, 2, 2, 0, 2, 0, 0, true, true))
    ensures StepsTo(Pair(), PairAt(Left, 2, 2, 0, 2, 0, 0, true, true), StopHelp,
                    PairAt(Left, 2, 2, 0, 2, 0, 0, false, true))
  {
  }

  function PairAction(i: nat): Action {
    match i
    case 0 => ReadFirst(0)
    case 1 => ReadTop(0)
    case 2 => StealNext(0)
    case 3 => Take(0, 0)
    case 4 => StealNext(0)
    case 5 => Take(0, 0)
    case 6 => StealNext(0)
    case 7 => GiveBack(0, 2)
    case 8 => LocalEmpty(0)
    case 9 => ReadFirst(0)
    case 10 => CompareAndSwap(0)
    case 11 => ReadTop(0)
    case 12 => LookAgain(0)
    case 13 => Leave(0)
    case _ => StopHelp
  }

  function PairState(i: nat): State {
    match i
    case 0 => PairAt(Top, 0, 0, 0, 0, 1, 1, true, false)
    case 1 => PairAt(LoadTop, 0, 0, 0, 0, 1, 1, true, false)
    case 2 => PairAt(Steal(0, 2, 0, 1), 0, 0, 0, 0, 1, 1, true, false)
    case 3 => PairAt(Grab(0, 2, 0, 1), 0, 0, 0, 0, 1, 1, true, false)
    case 4 => PairAt(Steal(1, 2, 1, 1), 0, 1, 1, 0, 1, 1, true, false)
    case 5 => PairAt(Grab(1, 2, 1, 1), 0, 1, 1, 0, 1, 1, true, false)
    case 6 => PairAt(Steal(2, 2, 2, 1), 0, 2, 2, 0, 1, 1, true, false)
    case 7 => PairAt(Mark, 2, 2, 2, 0, 1, 1, true, false)
    case 8 => PairAt(Mark, 2, 2, 0, 0, 1, 1, true, true)
    case 9 => PairAt(Top, 2, 2, 0, 0, 1, 1, true, true)
    case 10 => PairAt(Cas(0), 2, 2, 0, 0, 1, 1, true, true)
    case 11 => PairAt(LoadTop, 2, 2, 0, 2, 1, 1, true, true)
    case 12 => PairAt(Lock, 2, 2, 0, 2, 1, 1, true, true)
    case 13 => PairAt(Wait, 2, 2, 0, 2, 0, 1, true, true)
    case 14 => PairAt(Left, 2, 2, 0, 2, 0, 0, true, true)
    case _ => PairAt(Left, 2, 2, 0, 2, 0, 0, false, true)
  }

  lemma PairSteps(i: nat)
    requires i < 15
    ensures StepsTo(Pair(), PairState(i), PairAction(i), PairState(i + 1))
  {
    hide Apply, Enabled, Pair, PairAt, StepsTo;
    PairLooks();
    PairSteals(0);
    PairSteals(1);
    PairGivesBack();
    PairGoesIdle();
    PairLeaves();
  }

  /** Giving back to a full stack can end a phase with entries dropped and nothing marked. */
  lemma DropsWithoutMarking()
    ensures exists c: Config, states: seq<State>, actions: seq<Action> ::
              GoodConfig(c) && IsRun(c, states, actions)
              && var end := states[|states| - 1]; Over(end) && end.invalid && end.marks == c.marks0
  {
    hide Apply, Enabled, Init, GoodConfig, PairAction;
    PairStart();
    var actions := seq(15, i requires 0 <= i < 15 => PairAction(i));
    var states := seq(16, i requires 0 <= i < 16 => PairState(i));
    forall i | 0 <= i < |actions|
      ensures Enabled(Pair(), states[i], actions[i]) && states[i + 1] == Apply(Pair(), states[i], actions[i])
    {
      PairSteps(i);
    }
    assert IsRun(Pair(), states, actions);
  }
}
