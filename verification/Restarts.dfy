/**
 Starting the world again, GC_start_world in tool/gec/backend/c/boehm_gc/pthread_stop_world.c: when the
 threads stopped can go on as before the stop, and which threads a restart without resends may leave parked.
 */
module Restarts {
  import opened Sets
  import opened StopWorld
  import opened LateSignals

  // ---------- a world stopped as promised can be started

  /** As before a stop: the collector is between stops, the semaphore is 0, and every thread is in ordinary code. */
  ghost predicate Resumed(s: State) {
    s.col == Idle && s.sem == 0 && forall t :: t in s.threads ==> s.threads[t].pc == Run
  }

  /** Without beginning another stop everything can come to be as before the stop. */
  ghost predicate CanResume(c: Config, s: State) {
    exists s' :: Reaches(c, s, s') && Resumed(s')
  }

  /** A thread that is held by the current stop can park. */
  lemma Park(c: Config, s: State, t: nat) returns (m: Thread)
    requires t in s.threads && Held(s.stopCount, s.threads[t]) && s.flag
    ensures Reaches(c, s, With(s, t, m)) && m.pc.Parked?
  {
    hide Reaches, Apply;
    Here(c, s);
    m := s.threads[t];
    assert With(s, t, m) == s;
    if m.pc.Acked? {
      m := ThenThread(c, s, s, Store(t));
    } else if m.pc.Awake? {
      m := ThenThread(c, s, s, ReadFlag(t));
    }
    var s1 := With(s, t, m);
    if m.pc.FlagSeen? {
      m := ThenThread(c, s, s1, ReadCount(t));
      assert With(s1, t, m) == With(s, t, m);
    }
  }

  lemma {:induction false} ParkAll(c: Config, s: State, w: set<nat>) returns (s': State)
    requires forall t :: t in w ==> t in s.threads && Held(s.stopCount, s.threads[t])
    requires s.flag
    ensures Reaches(c, s, s') && Apart(s, w, s') && s'.col == s.col && s'.sem == s.sem
    ensures forall t :: t in w ==> s'.threads[t].pc.Parked?
    decreases w
  {
    hide Reaches, Held;
    s' := s;
    Here(c, s);
    if w != {} {
      var t :| t in w;
      var m := Park(c, s, t);
      var s1 := With(s, t, m);
      s' := ParkAll(c, s1, w - {t});
      AndThen(c, s, s1, s');
    }
  }

  /** The end of the restart, once every thread is gone from the handler. */
  lemma StartDone(c: Config, s: State) returns (s': State)
    requires s.col == Scan(true, {}, |c.ids|) && s.sem == if c.retry then |c.ids| else 0
    ensures Reaches(c, s, s') && s' == s.(col := Idle, sem := 0)
  {
    hide Reaches;
    if c.retry {
      s' := Pass(c, s);
    } else {
      Here(c, s);
      Then(c, s, s, ScanDone);
      s' := Apply(c, s, ScanDone);
    }
  }

  /** From any stop that keeps its promise the world can be started again. */
  lemma StoppedResumes(c: Config, s: State)
    requires Inv(c, s) && s.col == Stopped
    ensures CanResume(c, s)
  {
    hide Reaches, Held, StopExact;
    StoppedIs(c, s);
    var s1 := ParkAll(c, s, c.ids);
    Here(c, s1);
    Then(c, s1, s1, BeginStart);
    var s2 := Apply(c, s1, BeginStart);
    AndThen(c, s, s1, s2);
    var s3 := ScanAll(c, s2);
    AndThen(c, s, s2, s3);
    var s4 := ReleaseAll(c, s3, c.ids);
    AndThen(c, s, s3, s4);
    var s5 := StartDone(c, s4);
    AndThen(c, s, s4, s5);
    assert Resumed(s5);
  }

  lemma StoppedIs(c: Config, s: State)
    requires Inv(c, s) && s.col == Stopped
    ensures s.flag && s.sem == 0 && s.threads.Keys == c.ids
    ensures forall t :: t in c.ids ==> Held(s.stopCount, s.threads[t])
  {
    hide Posted, TodoOk;
    InvExact(c, s);
  }

  /** With or without resends, whenever GC_stop_world has returned in a careful run, GC_start_world can bring
      back every thread; without resends every run is careful. */
  lemma EveryStopResumes(c: Config, acts: seq<Action>)
    requires Careful(c, Init(c), acts) || (!c.retry && Enables(c, Init(c), acts))
    ensures Enables(c, Init(c), acts)
    ensures After(c, Init(c), acts).col == Stopped ==> CanResume(c, After(c, Init(c), acts))
  {
    hide Init, Careful, Enables, After, CanResume, Inv;
    InitInv(c);
    if !c.retry && Enables(c, Init(c), acts) { NoRetryCareful(c, Init(c), acts); }
    CarefulInv(c, Init(c), acts);
    if After(c, Init(c), acts).col == Stopped { StoppedResumes(c, After(c, Init(c), acts)); }
  }

  // ---------- after one acknowledgement too many it cannot

  /** What is true of a thread while the world is stopped or started with one acknowledgement too many. */
  predicate ThreadLeft(c: Config, col: Collector, k: nat, m: Thread) {
    && ThreadOk(c, k, m)
    && if Acknowledged(k, m) then Held(k, m) || (col != Stopped && (m.pc == Leaving(k) || Restarted(k, m)))
       else NotYet(c, k, m)
  }

  /** All posts since the stop count was published, for stopping and for leaving, were taken, are on the
      semaphore, or are still to be taken, one more than should be. */
  predicate Owed(c: Config, sem: nat, left: nat, acks: nat, restarts: nat) {
    left <= |c.ids| && sem + (|c.ids| - left) + |c.ids| - 1 == acks + restarts
  }

  predicate UnevenCounts(c: Config, col: Collector, flag: bool, sem: nat, acks: nat, gone: set<nat>) {
    && flag == (col == Stopped)
    && match col
       case Stopped => Owed(c, sem, |c.ids|, acks, |gone|)
       case Idle => Owed(c, sem, 0, acks, |gone|)
       case CountUp => false
       case Scan(starting, todo, n) =>
         starting && todo <= c.ids && n == |c.ids - todo| && Owed(c, sem, |c.ids|, acks, |gone|)
       case Timed(starting, n) => starting && Owed(c, sem, n, acks, |gone|)
       case Look(starting, n) => starting && Owed(c, sem, n, acks, |gone|)
       case Rescan(starting, todo, sent, n) =>
         starting && Owed(c, sem, n, acks, |gone|) && todo <= c.ids && sent >= |(c.ids - todo) - gone|
       case Recheck(starting, sent, n) => starting && Owed(c, sem, n, acks, |gone|) && sent >= |c.ids - gone|
       case Barrier(starting, n) => starting && Owed(c, sem, n, acks, |gone|)
  }

  ghost predicate Uneven(c: Config, s: State) {
    && c.retry && s.threads.Keys == c.ids
    && (forall t :: t in s.threads ==> ThreadLeft(c, s.col, s.stopCount, s.threads[t]))
    && |Acks(s)| >= |c.ids| - 1 && UnevenCounts(c, s.col, s.flag, s.sem, |Acks(s)|, Restarts(s))
  }

  lemma OneMissingUneven(c: Config, s: State, w: set<nat>)
    requires OneMissing(c, s, w) && c.retry
    ensures Uneven(c, s)
  {
    hide Answered, Due, ThreadLeft, Acknowledged, Restarted;
    forall t | t in s.threads
      ensures ThreadLeft(c, Stopped, s.stopCount, s.threads[t]) && !Restarted(s.stopCount, s.threads[t])
      ensures Acknowledged(s.stopCount, s.threads[t]) <==> t in w
    {
      if t !in w { assert t in c.ids - w; }
      AnsweredOrDue(c, s.stopCount, s.threads[t]);
    }
    assert Acks(s) == w;
    assert Restarts(s) == {};
  }

  lemma AnsweredOrDue(c: Config, k: nat, m: Thread)
    requires c.retry && k % 2 == 0 && (Answered(k, m) || Due(k, m))
    ensures ThreadLeft(c, Stopped, k, m) && !Restarted(k, m)
    ensures (Acknowledged(k, m) <==> Answered(k, m)) && !(Answered(k, m) && Due(k, m))
  {
  }

  /** A post is a new acknowledgement or a new restart, and nothing else is. */
  predicate PostsRight(c: Config, col: Collector, k: nat, m: Thread, a: Action)
    requires ThreadEnabled(m, a)
  {
    var m' := Moved(c, k, col == Stopped, m, a);
    && ThreadLeft(c, col, k, m')
    && (Acknowledged(k, m') <==> Acknowledged(k, m) || a.Post?)
    && (Restarted(k, m') <==> Restarted(k, m) || a.Leave?)
    && !(Acknowledged(k, m) && a.Post?) && !(Restarted(k, m) && a.Leave?)
  }

  lemma LeftEntering(c: Config, col: Collector, k: nat, m: Thread, a: Action)
    requires ThreadLeft(c, col, k, m) && ThreadEnabled(m, a) && c.retry
    requires a.Deliver? || a.Load? || a.Compare? || a.Post? || a.Store?
    ensures PostsRight(c, col, k, m, a)
  {
  }

  lemma LeftLeaving(c: Config, col: Collector, k: nat, m: Thread, a: Action)
    requires ThreadLeft(c, col, k, m) && ThreadEnabled(m, a) && c.retry
    requires !(a.Deliver? || a.Load? || a.Compare? || a.Post? || a.Store?)
    ensures PostsRight(c, col, k, m, a)
  {
  }

  lemma LeftThread(c: Config, col: Collector, k: nat, m: Thread, a: Action)
    requires ThreadLeft(c, col, k, m) && ThreadEnabled(m, a) && c.retry
    ensures PostsRight(c, col, k, m, a)
  {
    hide ThreadLeft, PostsRight, ThreadEnabled;
    if a.Deliver? || a.Load? || a.Compare? || a.Post? || a.Store? {
      LeftEntering(c, col, k, m, a);
    } else {
      LeftLeaving(c, col, k, m, a);
    }
  }

  lemma UnevenThread(c: Config, s: State, a: Action)
    requires Uneven(c, s) && Enabled(c, s, a) && OfThread(a)
    ensures Uneven(c, Apply(c, s, a))
  {
    hide ThreadLeft, Acks, Restarts, UnevenCounts;
    var s' := Apply(c, s, a);
    LeftAfter(c, s, a);
    UnevenPosts(c, s.col, s.flag, s.sem, |Acks(s)|, Restarts(s), s'.sem, |Acks(s')|, Restarts(s'));
  }

  lemma LeftAfter(c: Config, s: State, a: Action)
    requires Uneven(c, s) && Enabled(c, s, a) && OfThread(a)
    ensures var s' := Apply(c, s, a);
            && (forall t :: t in s'.threads ==> ThreadLeft(c, s.col, s.stopCount, s'.threads[t]))
            && Restarts(s) <= Restarts(s') && |Acks(s)| <= |Acks(s')|
            && s'.sem + |Acks(s)| + |Restarts(s)| == s.sem + |Acks(s')| + |Restarts(s')|
  {
    hide ThreadLeft, Moved, ThreadEnabled, UnevenCounts, Acknowledged, Restarted;
    UnevenFlag(c, s);
    var s' := Apply(c, s, a);
    LeftThread(c, s.col, s.stopCount, s.threads[a.t], a);
    SetGrows(Acks(s), Acks(s'), a.t, a.Post?);
    SetGrows(Restarts(s), Restarts(s'), a.t, a.Leave?);
  }

  lemma SetGrows(w: set<nat>, w': set<nat>, t: nat, more: bool)
    requires (forall u :: u in w' <==> u in w || (more && u == t)) && (more ==> t !in w)
    ensures w <= w' && |w'| == |w| + if more then 1 else 0
  {
    assert w' == if more then w + {t} else w;
  }

  lemma UnevenFlag(c: Config, s: State)
    requires Uneven(c, s)
    ensures s.flag == (s.col == Stopped)
  {
    hide ThreadLeft;
  }

  lemma UnevenPosts(c: Config, col: Collector, flag: bool, sem: nat, acks: nat, gone: set<nat>,
                    sem': nat, acks': nat, gone': set<nat>)
    requires UnevenCounts(c, col, flag, sem, acks, gone) && gone <= gone'
    requires sem' + acks + |gone| == sem + acks' + |gone'|
    ensures UnevenCounts(c, col, flag, sem', acks', gone')
  {
    if col.Rescan? {
      SubsetSize((c.ids - col.todo) - gone', (c.ids - col.todo) - gone);
    } else if col.Recheck? {
      SubsetSize(c.ids - gone', c.ids - gone);
    }
  }

  /** The collector's steps with the same acknowledgements and restarts. */
  lemma UnevenGoesOn(c: Config, s: State, s': State)
    requires Uneven(c, s) && s'.threads.Keys == s.threads.Keys && s'.stopCount == s.stopCount
    requires s'.col != Stopped && Acks(s') == Acks(s) && Restarts(s') == Restarts(s)
    requires forall t :: t in s.threads ==> ThreadLeft(c, s.col, s.stopCount, s'.threads[t])
    requires UnevenCounts(c, s'.col, s'.flag, s'.sem, |Acks(s)|, Restarts(s))
    ensures Uneven(c, s')
  {
    hide ThreadOk, Acknowledged, Held, Restarted, NotYet, UnevenCounts;
  }

  /** A restart signal is no post. */
  lemma SignalLeft(c: Config, s: State, t: nat, lost: bool, s': State)
    requires Uneven(c, s) && t in s.threads && s'.stopCount == s.stopCount
    requires s'.threads == s.threads[t := Signalled(s.threads[t], true, lost)]
    ensures Acks(s') == Acks(s) && Restarts(s') == Restarts(s)
    ensures forall u :: u in s.threads ==> ThreadLeft(c, s.col, s.stopCount, s'.threads[u])
  {
    hide UnevenCounts;
    SignalPosted(s, t, true, true, lost, s');
    SignalPosted(s, t, false, true, lost, s');
    assert Posted(s', true) == Restarts(s') && Posted(s, true) == Restarts(s);
    assert Posted(s', false) == Acks(s') && Posted(s, false) == Acks(s);
  }

  lemma OursLeft(c: Config, s: State)
    requires Uneven(c, s)
    ensures Restarts(s) <= Acks(s) <= c.ids && |Restarts(s)| <= |Acks(s)| <= |c.ids|
    ensures |c.ids - Restarts(s)| == |c.ids| - |Restarts(s)|
  {
    hide ThreadLeft, UnevenCounts;
    SubsetSize(Restarts(s), Acks(s));
    SubsetSize(Acks(s), c.ids);
    SubsetSize(Restarts(s), c.ids);
  }

  lemma UnevenScanOne(c: Config, s: State, a: Action)
    requires Uneven(c, s) && a.ScanOne? && Enabled(c, s, a)
    ensures Uneven(c, Apply(c, s, a))
  {
    hide ThreadLeft, Acks, Restarts, Owed;
    var s', todo := Apply(c, s, a), s.col.todo;
    SignalLeft(c, s, a.t, a.lost, s');
    assert c.ids - (todo - {a.t}) == (c.ids - todo) + {a.t};
    UnevenGoesOn(c, s, s');
  }

  lemma SettledLeft(c: Config, s: State, t: nat)
    requires Uneven(c, s) && t in s.threads && s.threads[t].last == s.stopCount + 1
    ensures t in Restarts(s)
  {
    hide UnevenCounts;
    assert ThreadLeft(c, s.col, s.stopCount, s.threads[t]);
  }

  lemma UnevenRescanOne(c: Config, s: State, a: Action)
    requires Uneven(c, s) && a.RescanOne? && Enabled(c, s, a)
    ensures Uneven(c, Apply(c, s, a))
  {
    hide ThreadLeft, Acks, Restarts, Owed, Apply, Enabled, Signalled;
    RescanOneSteps(c, s, a);
    var s', t := Apply(c, s, a), a.t;
    RescanLeft(c, s.col.todo, Restarts(s), t, s.col.sent);
    if Settled(s, s.threads[t], true) {
      SettledLeft(c, s, t);
      SameLeft(c, s, s');
    } else {
      SignalLeft(c, s, t, a.lost, s');
    }
    UnevenGoesOn(c, s, s');
  }

  lemma RescanLeft(c: Config, todo: set<nat>, gone: set<nat>, t: nat, sent: nat)
    requires todo <= c.ids && t in todo && sent >= |(c.ids - todo) - gone|
    ensures todo - {t} <= c.ids && sent + 1 >= |(c.ids - (todo - {t})) - gone|
    ensures t in gone ==> sent >= |(c.ids - (todo - {t})) - gone|
  {
    var rest, more := (c.ids - todo) - gone, (c.ids - (todo - {t})) - gone;
    if t in gone {
      assert more == rest;
    } else {
      assert more == rest + {t};
    }
  }

  lemma SameLeft(c: Config, s: State, s': State)
    requires Uneven(c, s) && s'.threads == s.threads && s'.stopCount == s.stopCount
    ensures Acks(s') == Acks(s) && Restarts(s') == Restarts(s)
    ensures forall t :: t in s.threads ==> ThreadLeft(c, s.col, s.stopCount, s'.threads[t])
  {
    hide ThreadLeft, UnevenCounts, Acknowledged, Restarted;
  }

  predicate OnlyCounts(a: Action) {
    !OfThread(a) && !a.ScanOne? && !a.RescanOne? && !a.BeginStop?
  }

  /** The other steps of the collector only count; there are always enough signals to resend. */
  lemma UnevenOther(c: Config, s: State, a: Action)
    requires Uneven(c, s) && Enabled(c, s, a) && OnlyCounts(a)
    ensures Uneven(c, Apply(c, s, a))
  {
    hide ThreadLeft, Acks, Restarts, UnevenCounts, Apply, Enabled;
    OursLeft(c, s);
    OtherCounts(c, s, a, |Acks(s)|, Restarts(s));
    SameLeft(c, s, Apply(c, s, a));
    UnevenGoesOn(c, s, Apply(c, s, a));
  }

  ghost predicate CountsOn(c: Config, s: State, s': State, acks: nat, gone: set<nat>) {
    && UnevenCounts(c, s'.col, s'.flag, s'.sem, acks, gone)
    && s'.threads == s.threads && s'.stopCount == s.stopCount && s'.col != Stopped
  }

  lemma OtherCounts(c: Config, s: State, a: Action, acks: nat, gone: set<nat>)
    requires UnevenCounts(c, s.col, s.flag, s.sem, acks, gone) && Enabled(c, s, a) && OnlyCounts(a)
    requires |c.ids| - 1 <= acks && |c.ids - gone| == |c.ids| - |gone| && c.retry
    ensures CountsOn(c, s, Apply(c, s, a), acks, gone)
  {
    hide UnevenCounts, CountsOn, Apply, Enabled;
    if a.Take? || a.TakeTimed? || a.Resend? || a.Decide? {
      TakeCounts(c, s, a, acks, gone);
    } else {
      PlaceCounts(c, s, a, acks, gone);
    }
  }

  lemma TakeCounts(c: Config, s: State, a: Action, acks: nat, gone: set<nat>)
    requires UnevenCounts(c, s.col, s.flag, s.sem, acks, gone) && Enabled(c, s, a)
    requires a.Take? || a.TakeTimed? || a.Resend? || a.Decide?
    requires |c.ids| - 1 <= acks && |c.ids - gone| == |c.ids| - |gone| && c.retry
    ensures CountsOn(c, s, Apply(c, s, a), acks, gone)
  {
    assert (c.ids - c.ids) - gone == {};
  }

  lemma PlaceCounts(c: Config, s: State, a: Action, acks: nat, gone: set<nat>)
    requires UnevenCounts(c, s.col, s.flag, s.sem, acks, gone) && Enabled(c, s, a) && OnlyCounts(a) && c.retry
    requires !(a.Take? || a.TakeTimed? || a.Resend? || a.Decide?)
    ensures CountsOn(c, s, Apply(c, s, a), acks, gone)
  {
    assert c.ids - c.ids == {} && c.ids - {} == c.ids;
  }

  lemma UnevenStep(c: Config, s: State, a: Action)
    requires Uneven(c, s) && Enabled(c, s, a) && !a.BeginStop?
    ensures Uneven(c, Apply(c, s, a))
  {
    hide Uneven, Apply, Enabled;
    if OfThread(a) {
      UnevenThread(c, s, a);
    } else if a.ScanOne? {
      UnevenScanOne(c, s, a);
    } else if a.RescanOne? {
      UnevenRescanOne(c, s, a);
    } else {
      UnevenOther(c, s, a);
    }
  }

  lemma {:induction false} UnevenRun(c: Config, s: State, acts: seq<Action>)
    requires Uneven(c, s) && Enables(c, s, acts) && BeginStop !in acts
    ensures Uneven(c, After(c, s, acts))
    decreases |acts|
  {
    hide Uneven, Apply, Enabled;
    if acts != [] {
      UnevenStep(c, s, acts[0]);
      UnevenRun(c, Apply(c, s, acts[0]), acts[1..]);
    }
  }

  /** With every thread back in ordinary code as many have been restarted as have acknowledged, so that the
      number of posts is even. */
  lemma UnevenNotResumed(c: Config, s: State)
    requires Uneven(c, s)
    ensures !Resumed(s)
  {
    if forall t :: t in s.threads ==> s.threads[t].pc == Run { AllRestarted(c, s); }
  }

  lemma AllRestarted(c: Config, s: State)
    requires Uneven(c, s) && forall t :: t in s.threads ==> s.threads[t].pc == Run
    ensures Acks(s) == Restarts(s)
  {
    hide UnevenCounts;
  }

  lemma OneMissingNoResume(c: Config, s: State, w: set<nat>)
    requires OneMissing(c, s, w) && c.retry
    ensures !CanResume(c, s)
  {
    hide Uneven, Resumed, OneMissing;
    OneMissingUneven(c, s, w);
    forall s' | Reaches(c, s, s') ensures !Resumed(s') {
      var acts :| Enables(c, s, acts) && After(c, s, acts) == s' && BeginStop !in acts;
      UnevenRun(c, s, acts);
      UnevenNotResumed(c, s');
    }
  }

  /** From each return of the next GC_stop_world the world can come to be as before, exactly when no suspend
      signal of an earlier stop is unanswered. */
  lemma ResumesIffQuiet(c: Config, s: State)
    requires Inv(c, s) && s.col == Idle
    ensures (forall acts :: OneStop(c, s, acts) && After(c, s, acts).col == Stopped ==> CanResume(c, After(c, s, acts)))
       <==> Quiet(s)
  {
    hide CanResume, Careful, Apply, Stale, OneMissing, StopExact;
    var s0 := Apply(c, s, BeginStop);
    if Quiet(s) {
      StepInv(c, s, BeginStop);
      forall acts | OneStop(c, s, acts) && After(c, s, acts).col == Stopped
        ensures CanResume(c, After(c, s, acts))
      {
        NoStopCareful(c, s0, acts[1..]);
        CarefulInv(c, s0, acts[1..]);
        StoppedResumes(c, After(c, s, acts));
      }
    } else {
      if !c.retry { QuietUnlessRetrying(c, s); }
      var t :| t in s.threads && Stale(s.threads[t]);
      var u := Another(c.ids, t);
      var s', w := LeftoverBreaksStop(c, s, t, u, false);
      OneMissingNoResume(c, s', w);
      var acts := StopRun(c, s, s');
      assert !CanResume(c, After(c, s, acts));
    }
  }

  lemma StopRun(c: Config, s: State, s': State) returns (acts: seq<Action>)
    requires s.col == Idle && Reaches(c, Apply(c, s, BeginStop), s')
    ensures OneStop(c, s, acts) && After(c, s, acts) == s'
  {
    hide Apply;
    var s0 := Apply(c, s, BeginStop);
    var more :| Enables(c, s0, more) && After(c, s0, more) == s' && BeginStop !in more;
    acts := [BeginStop] + more;
    assert acts[1..] == more;
  }

  // ---------- a restart that never ends

  /** Not stopped, and not about to be. */
  predicate Away(k: nat, m: Thread) {
    Due(k, m) && !Stale(m)
  }

  lemma AwayStep(c: Config, s: State, a: Action, u: nat)
    requires Uneven(c, s) && Enabled(c, s, a) && !a.BeginStop?
    requires u in s.threads && Away(s.stopCount, s.threads[u])
    ensures var s' := Apply(c, s, a); u in s'.threads && s'.stopCount == s.stopCount && Away(s.stopCount, s'.threads[u])
  {
    hide ThreadLeft, Acks, Restarts, Owed, Moved, ThreadEnabled, Away, Signalled;
    if OfThread(a) {
      if a.t == u { AwayMoves(c, s.stopCount, s.flag, s.threads[u], a); }
    } else if (a.ScanOne? || a.RescanOne?) && a.t == u {
      AwaySignalled(s.stopCount, s.threads[u], a.lost);
    }
  }

  lemma AwayMoves(c: Config, k: nat, flag: bool, m: Thread, a: Action)
    requires Away(k, m) && ThreadEnabled(m, a)
    ensures Away(k, Moved(c, k, flag, m, a))
  {
  }

  lemma AwaySignalled(k: nat, m: Thread, lost: bool)
    requires Away(k, m)
    ensures Away(k, Signalled(m, true, lost))
  {
  }

  lemma {:induction false} AwayRun(c: Config, s: State, acts: seq<Action>, u: nat)
    requires Uneven(c, s) && Enables(c, s, acts) && BeginStop !in acts && u in s.threads
    requires Away(s.stopCount, s.threads[u])
    ensures var s' := After(c, s, acts);
            Uneven(c, s') && u in s'.threads && Away(s'.stopCount, s'.threads[u])
    decreases |acts|
  {
    hide Uneven, Away, Apply, Enabled;
    if acts != [] {
      UnevenStep(c, s, acts[0]);
      AwayStep(c, s, acts[0], u);
      AwayRun(c, Apply(c, s, acts[0]), acts[1..], u);
    }
  }

  /** There are not enough posts to take while a thread is away. */
  lemma AwayNotIdle(c: Config, s: State, u: nat)
    requires Uneven(c, s) && u in s.threads && Away(s.stopCount, s.threads[u])
    ensures s.col != Idle
  {
    hide ThreadLeft;
    OursLeft(c, s);
    assert u !in Acks(s);
    SubsetSize(Acks(s), c.ids);
    assert Acks(s) != c.ids;
  }

  /** With resends and two threads some run from the beginning comes to a return of GC_stop_world from where the
      GC_start_world that follows never returns: it waits for a thread whose suspend signal was lost. */
  lemma RetryCanBlockStart(c: Config) returns (acts: seq<Action>)
    requires c.retry && |c.ids| >= 2
    ensures Enables(c, Init(c), acts) && After(c, Init(c), acts).col == Stopped
    ensures forall s' :: Reaches(c, After(c, Init(c), acts), s') ==> s'.col != Idle
  {
    hide StopExact, Held, Inv, Quiet, Reaches, Init, Apply, Enables, After, Uneven;
    InitInv(c);
    InitQuiet(c);
    assert c.ids != {};
    var t :| t in c.ids;
    var u := Another(c.ids, t);
    var s1 := LeftoverArises(c, Init(c), t);
    var first := StopThen(c, Init(c), s1);
    assert Init(c).threads[u].pc == Run by { InitRuns(c, u); }
    var s2, w := LeftoverBreaksStop(c, s1, t, u, true);
    var second := StopThen(c, s1, s2);
    AfterBoth(c, Init(c), first, second);
    acts := first + second;
    OneMissingUneven(c, s2, w);
    assert u in c.ids - w;
    forall s' | Reaches(c, s2, s') ensures s'.col != Idle { BlockedFrom(c, s2, s', u); }
  }

  lemma InitRuns(c: Config, u: nat)
    requires u in c.ids
    ensures u in Init(c).threads && Init(c).threads[u].pc == Run
  {
  }

  lemma BlockedFrom(c: Config, s: State, s': State, u: nat)
    requires Uneven(c, s) && Reaches(c, s, s') && u in s.threads && Away(s.stopCount, s.threads[u])
    ensures s'.col != Idle
  {
    hide Uneven, Away;
    var acts :| Enables(c, s, acts) && After(c, s, acts) == s' && BeginStop !in acts;
    AwayRun(c, s, acts, u);
    AwayNotIdle(c, s', u);
  }

  // ---------- restarting without resends

  /** No restart signal gets lost. */
  ghost predicate Lossless(c: Config, s: State, acts: seq<Action>)
    decreases |acts|
  {
    acts == []
    || (&& Enabled(c, s, acts[0]) && (acts[0].ScanOne? && Starting(s.col) ==> !acts[0].lost)
        && Lossless(c, Apply(c, s, acts[0]), acts[1..]))
  }

  /** The restart signal has been sent to the thread since the last stop. */
  predicate Sent(col: Collector, t: nat) {
    col == Idle || (col.Scan? && col.starting && t !in col.todo)
  }

  /** Held by stop k or an earlier one, where only a restart signal leads on. */
  predicate Waiting(k: nat, m: Thread) {
    m.pc.Acked? || m.pc.Parked? || m.pc == FlagSeen(k)
  }

  /** A thread that waits for a restart signal has one coming. */
  predicate Promised(k: nat, sent: bool, m: Thread) {
    Waiting(k, m) && (sent || m.pc.my < k) ==> m.restartPending
  }

  ghost predicate AllPromised(s: State) {
    forall t :: t in s.threads ==> Promised(s.stopCount, Sent(s.col, t), s.threads[t])
  }

  lemma PromisedThread(c: Config, col: Collector, k: nat, sent: bool, m: Thread, a: Action)
    requires !c.retry && PhaseOk(c, col, k, m) && ThreadEnabled(m, a) && Promised(k, sent, m)
    requires sent ==> col == Idle || Starting(col)
    ensures Promised(k, sent, Moved(c, k, Raised(col), m, a))
  {
  }

  lemma PromisedThreadStep(c: Config, s: State, a: Action)
    requires !c.retry && Inv(c, s) && AllPromised(s) && Enabled(c, s, a) && OfThread(a)
    ensures AllPromised(Apply(c, s, a))
  {
    hide PhaseOk, Promised, Moved, ThreadEnabled, ColOk;
    ThreadSteps(c, s, a);
    PromisedThread(c, s.col, s.stopCount, Sent(s.col, a.t), s.threads[a.t], a);
  }

  /** The next stop finds the promise kept for all. */
  lemma PromisedBeginStop(c: Config, s: State)
    requires !c.retry && Inv(c, s) && AllPromised(s) && s.col == Idle
    ensures AllPromised(Apply(c, s, BeginStop))
  {
    hide ColOk;
    forall t | t in s.threads
      ensures Promised(s.stopCount + 2, false, s.threads[t])
    {
      assert PhaseOk(c, s.col, s.stopCount, s.threads[t]) && Promised(s.stopCount, true, s.threads[t]);
    }
  }

  lemma PromisedOther(c: Config, s: State, a: Action)
    requires !c.retry && Inv(c, s) && AllPromised(s) && Enabled(c, s, a) && !OfThread(a) && !a.BeginStop?
    requires a.ScanOne? && Starting(s.col) ==> !a.lost
    ensures AllPromised(Apply(c, s, a))
  {
    hide PhaseOk, Posted, Accounted, TodoOk;
  }

  lemma PromisedStep(c: Config, s: State, a: Action)
    requires !c.retry && Inv(c, s) && AllPromised(s) && Enabled(c, s, a)
    requires a.ScanOne? && Starting(s.col) ==> !a.lost
    ensures AllPromised(Apply(c, s, a))
  {
    hide Inv, AllPromised, Apply;
    if OfThread(a) {
      PromisedThreadStep(c, s, a);
    } else if a.BeginStop? {
      PromisedBeginStop(c, s);
    } else {
      PromisedOther(c, s, a);
    }
  }

  lemma {:induction false} PromisedRun(c: Config, s: State, acts: seq<Action>)
    requires !c.retry && Inv(c, s) && AllPromised(s) && Lossless(c, s, acts)
    ensures Enables(c, s, acts) && Inv(c, After(c, s, acts)) && AllPromised(After(c, s, acts))
    decreases |acts|
  {
    hide Inv, AllPromised, Apply, Enabled;
    if acts != [] {
      StepInv(c, s, acts[0]);
      PromisedStep(c, s, acts[0]);
      PromisedRun(c, Apply(c, s, acts[0]), acts[1..]);
    }
  }

  /** Between stops the thread has been forgotten: it waits for a restart signal that does not come. */
  predicate Forgotten(k: nat, m: Thread) {
    Waiting(k, m) && !m.restartPending
  }

  /** A thread that is not forgotten gets away. */
  lemma GetAway(c: Config, s: State, t: nat) returns (m: Thread)
    requires !c.retry && t in s.threads && PhaseOk(c, Idle, s.stopCount, s.threads[t]) && !s.flag
    requires !Forgotten(s.stopCount, s.threads[t])
    ensures Reaches(c, s, With(s, t, m)) && m.pc == Run
  {
    hide Reaches, Apply;
    Here(c, s);
    m := s.threads[t];
    assert With(s, t, m) == s;
    if m.pc.Acked? {
      m := ThenThread(c, s, s, Store(t));
    } else if m.pc.FlagSeen? {
      m := ThenThread(c, s, s, ReadCount(t));
    }
    var s1 := With(s, t, m);
    if m.pc.Parked? {
      m := WakeUp(c, s1, t);
      AndThen(c, s, s1, With(s1, t, m));
      assert With(s1, t, m) == With(s, t, m);
    } else if m.pc.Awake? {
      m := ThenThread(c, s, s, ReadFlag(t));
    }
    var s2 := With(s, t, m);
    if m.pc.Leaving? {
      m := Go(c, s2, t);
      AndThen(c, s, s2, With(s2, t, m));
      assert With(s2, t, m) == With(s, t, m);
    }
  }

  lemma {:induction false} AllGetAway(c: Config, s: State, w: set<nat>) returns (s': State)
    requires !c.retry && !s.flag && s.col == Idle
    requires forall t :: t in w ==> t in s.threads && PhaseOk(c, Idle, s.stopCount, s.threads[t])
    requires forall t :: t in w ==> !Forgotten(s.stopCount, s.threads[t])
    ensures Reaches(c, s, s') && Apart(s, w, s') && s'.col == Idle && s'.sem == s.sem
    ensures forall t :: t in w ==> s'.threads[t].pc == Run
    decreases w
  {
    hide Reaches, Forgotten, PhaseOk;
    s' := s;
    Here(c, s);
    if w != {} {
      var t :| t in w;
      var m := GetAway(c, s, t);
      var s1 := With(s, t, m);
      s' := AllGetAway(c, s1, w - {t});
      AndThen(c, s, s1, s');
    }
  }

  /** A forgotten thread stays so until the next stop. */
  lemma ForgottenStep(c: Config, s: State, a: Action, t: nat)
    requires s.col == Idle && !s.flag && t in s.threads && Forgotten(s.stopCount, s.threads[t])
    requires Enabled(c, s, a) && !a.BeginStop?
    ensures var s' := Apply(c, s, a);
            && s'.col == Idle && !s'.flag && s'.stopCount == s.stopCount && t in s'.threads
            && Forgotten(s.stopCount, s'.threads[t])
  {
  }

  lemma {:induction false} ForgottenRun(c: Config, s: State, acts: seq<Action>, t: nat)
    requires s.col == Idle && !s.flag && t in s.threads && Forgotten(s.stopCount, s.threads[t])
    requires Enables(c, s, acts) && BeginStop !in acts
    ensures !Resumed(After(c, s, acts))
    decreases |acts|
  {
    hide Apply, Enabled;
    if acts != [] {
      ForgottenStep(c, s, acts[0], t);
      ForgottenRun(c, Apply(c, s, acts[0]), acts[1..], t);
    }
  }

  /** Without resends, between stops everything can come to be as before the stop exactly when no thread is
      forgotten. */
  lemma ResumesIffNoneForgotten(c: Config, s: State)
    requires Inv(c, s) && !c.retry && s.col == Idle
    ensures CanResume(c, s) <==> forall t :: t in s.threads ==> !Forgotten(s.stopCount, s.threads[t])
  {
    hide Forgotten, TodoOk, Posted, PhaseOk, Enables, After;
    if forall t :: t in s.threads ==> !Forgotten(s.stopCount, s.threads[t]) {
      var s' := AllGetAway(c, s, s.threads.Keys);
      assert Resumed(s');
    } else {
      var t :| t in s.threads && Forgotten(s.stopCount, s.threads[t]);
      forall acts | Enables(c, s, acts) && BeginStop !in acts ensures !Resumed(After(c, s, acts)) {
        ForgottenRun(c, s, acts, t);
      }
    }
  }

  /** Without resends and with no restart signal lost, in every run no thread is forgotten between stops: a
      parked one has its restart signal coming, and all can get back to ordinary code. */
  lemma NobodyForgotten(c: Config, acts: seq<Action>)
    requires !c.retry && Lossless(c, Init(c), acts)
    ensures Enables(c, Init(c), acts)
    ensures var s := After(c, Init(c), acts);
            s.col == Idle ==>
              && (forall t :: t in s.threads && s.threads[t].pc.Parked? ==> s.threads[t].restartPending)
              && CanResume(c, s)
  {
    hide Inv, Init, Lossless, Enables, After, CanResume;
    InitInv(c);
    assert AllPromised(Init(c)) by { InitPromised(c); }
    PromisedRun(c, Init(c), acts);
    var s := After(c, Init(c), acts);
    if s.col == Idle {
      forall t | t in s.threads ensures !Forgotten(s.stopCount, s.threads[t]) {
        assert Promised(s.stopCount, Sent(s.col, t), s.threads[t]);
      }
      ResumesIffNoneForgotten(c, s);
    }
  }

  lemma InitPromised(c: Config)
    ensures AllPromised(Init(c))
  {
  }

  // ---------- and stopping again

  /** With every thread due, the stop can come to its end. */
  lemma DueStops(c: Config, s: State) returns (s': State)
    requires s.col == CountUp && s.sem == 0 && s.threads.Keys == c.ids && (c.ids != {} ==> s.stopCount % 2 == 0)
    requires forall t :: t in c.ids ==> Due(s.stopCount, s.threads[t])
    ensures Reaches(c, s, s') && s'.col == Stopped
  {
    hide Reaches, Due, Stale, Signalled;
    forall t | t in c.ids
      ensures s.threads[t].last != s.stopCount && Stale(Signalled(s.threads[t], false, false))
      ensures Due(s.stopCount, Signalled(s.threads[t], false, false))
    {
      SignalledDue(s.stopCount, s.threads[t], false);
    }
    Here(c, s);
    Then(c, s, s, RaiseFlag);
    var s0 := Apply(c, s, RaiseFlag);
    var s1 := ScanAll(c, s0);
    AndThen(c, s, s0, s1);
    var s2 := AnswerAll(c, s1, c.ids);
    AndThen(c, s, s1, s2);
    s' := StopDone(c, s2);
    AndThen(c, s, s2, s');
  }

  lemma StopDone(c: Config, s: State) returns (s': State)
    requires s.col == Scan(false, {}, |c.ids|) && s.sem == |c.ids|
    ensures Reaches(c, s, s') && s'.col == Stopped
  {
    hide Reaches;
    if c.retry {
      s' := Pass(c, s);
    } else {
      Here(c, s);
      Then(c, s, s, ScanDone);
      var s1 := Apply(c, s, ScanDone);
      TakeAll(c, s1);
      s' := s1.(col := Stopped, sem := 0);
      AndThen(c, s, s1, s');
    }
  }

  /** Without resends: once all are back in ordinary code all are due. */
  lemma RunningDue(c: Config, s: State, s1: State)
    requires Inv(c, s) && Reaches(c, s, s1) && s1.col == Idle && forall t :: t in s1.threads ==> s1.threads[t].pc == Run
    ensures Inv(c, s1) && forall t :: t in c.ids ==> Due(s1.stopCount + 2, s1.threads[t])
  {
    hide Posted, TodoOk;
    var acts :| Enables(c, s, acts) && After(c, s, acts) == s1 && BeginStop !in acts;
    NoStopCareful(c, s, acts);
    CarefulInv(c, s, acts);
    forall t | t in c.ids ensures Due(s1.stopCount + 2, s1.threads[t]) {
      assert PhaseOk(c, Idle, s1.stopCount, s1.threads[t]);
    }
  }

  /** Between stops another one can always be completed, without resends if no thread is forgotten. */
  lemma IdleStops(c: Config, s: State) returns (s1: State, s2: State)
    requires Inv(c, s) && s.col == Idle
    requires c.retry || forall t :: t in s.threads ==> !Forgotten(s.stopCount, s.threads[t])
    ensures Reaches(c, s, s1) && s1.col == Idle && Reaches(c, Apply(c, s1, BeginStop), s2) && s2.col == Stopped
  {
    hide Inv, Reaches, Due, Forgotten, PhaseOk;
    s1 := s;
    Here(c, s);
    if c.retry {
      forall t | t in s.threads ensures Due(s.stopCount + 2, s.threads[t]) { DueAtStop(c, s, t); }
    } else {
      IdleIs(c, s);
      s1 := AllGetAway(c, s, s.threads.Keys);
      RunningDue(c, s, s1);
    }
    AtIdle(c, s1);
    IdleIs(c, s1);
    s2 := DueStops(c, Apply(c, s1, BeginStop));
  }

  lemma IdleIs(c: Config, s: State)
    requires Inv(c, s) && s.col == Idle
    ensures !s.flag && s.threads.Keys == c.ids && (c.ids != {} ==> s.stopCount % 2 == 0)
    ensures forall t :: t in s.threads ==> PhaseOk(c, Idle, s.stopCount, s.threads[t])
  {
    hide Posted, TodoOk;
  }
}
