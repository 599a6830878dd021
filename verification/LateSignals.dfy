/**
 Resending suspend signals and its cost: a signal that arrives late answers the next stop before
 the collector asks, which GC_stop_world in tool/gec/backend/c/boehm_gc/pthread_stop_world.c
 miscounts.
 */
module LateSignals {
  import opened StopWorld

  // ---------- what an unanswered suspend signal can do

  /** s' can be reached from s without beginning another stop. */
  ghost predicate Reaches(c: Config, s: State, s': State) {
    exists acts :: Enables(c, s, acts) && After(c, s, acts) == s' && BeginStop !in acts
  }

  lemma {:induction false} AfterBoth(c: Config, s: State, before: seq<Action>, more: seq<Action>)
    requires Enables(c, s, before) && Enables(c, After(c, s, before), more)
    ensures Enables(c, s, before + more) && After(c, s, before + more) == After(c, After(c, s, before), more)
    decreases |before|
  {
    hide Apply, Enabled;
    if before == [] {
      assert before + more == more;
    } else {
      AfterBoth(c, Apply(c, s, before[0]), before[1..], more);
      assert (before + more)[1..] == before[1..] + more;
    }
  }

  lemma Here(c: Config, s: State)
    ensures Reaches(c, s, s)
  {
    assert Enables(c, s, []) && After(c, s, []) == s;
  }

  lemma Then(c: Config, s: State, s1: State, a: Action)
    requires Reaches(c, s, s1) && Enabled(c, s1, a) && !a.BeginStop?
    ensures Reaches(c, s, Apply(c, s1, a))
  {
    hide Apply, Enabled;
    var acts :| Enables(c, s, acts) && After(c, s, acts) == s1 && BeginStop !in acts;
    var s2 := Apply(c, s1, a);
    assert Enables(c, s2, []);
    assert Enables(c, s1, [a]) && After(c, s1, [a]) == s2;
    AfterBoth(c, s, acts, [a]);
  }

  lemma AndThen(c: Config, s: State, s1: State, s2: State)
    requires Reaches(c, s, s1) && Reaches(c, s1, s2)
    ensures Reaches(c, s, s2)
  {
    hide Enables, After;
    var a1 :| Enables(c, s, a1) && After(c, s, a1) == s1 && BeginStop !in a1;
    var a2 :| Enables(c, s1, a2) && After(c, s1, a2) == s2 && BeginStop !in a2;
    AfterBoth(c, s, a1, a2);
  }

  /** The thread has left every earlier stop and not answered stop k. */
  predicate Due(k: nat, m: Thread) {
    && Base(m.last) < k && k % 2 == 0
    && match m.pc
       case Run => true
       case Entered => true
       case Loaded(my) => Base(m.last) == my
       case LeftPosted(my) => my % 2 == 0 && my < k && m.last == my
       case _ => false
  }

  /** The thread has answered stop k and is parked. */
  predicate Answered(k: nat, m: Thread) {
    m.pc == Parked(k) && m.last == k && m.saved == k
  }

  /** In ordinary code, with no suspend signal on the way. */
  predicate Running(m: Thread) {
    m.pc == Run && !m.suspendPending
  }

  function With(s: State, t: nat, m: Thread): State {
    s.(threads := s.threads[t := m])
  }

  /** One more step, of thread t. */
  lemma ThenThread(c: Config, s: State, s1: State, a: Action) returns (m: Thread)
    requires Reaches(c, s, s1) && OfThread(a) && a.t in s1.threads && ThreadEnabled(s1.threads[a.t], a)
    ensures m == Moved(c, s1.stopCount, s1.flag, s1.threads[a.t], a)
    ensures Reaches(c, s, With(s1, a.t, m).(sem := s1.sem + if Posts(c, a) then 1 else 0))
  {
    hide Reaches, ThreadEnabled, Moved, Posts;
    Then(c, s, s1, a);
    m := Moved(c, s1.stopCount, s1.flag, s1.threads[a.t], a);
  }

  /** A due thread with an unanswered suspend signal gets into the handler. */
  lemma Enter(c: Config, s: State, t: nat) returns (m: Thread)
    requires t in s.threads && Due(s.stopCount, s.threads[t]) && Stale(s.threads[t])
    ensures Reaches(c, s, With(s, t, m)) && Due(s.stopCount, m) && m.pc == Entered
    ensures s.threads[t].pc == Entered ==> m == s.threads[t]
    ensures s.threads[t].pc == Run ==> !m.suspendPending
  {
    hide Reaches, Apply;
    m := s.threads[t];
    Here(c, s);
    assert With(s, t, m) == s;
    if m.pc.Loaded? {
      m := ThenThread(c, s, s, Compare(t));
    } else if m.pc.LeftPosted? {
      m := ThenThread(c, s, s, StoreRestarted(t));
    }
    var s1 := With(s, t, m);
    if m.pc == Run {
      m := ThenThread(c, s, s1, Deliver(t));
      assert With(s1, t, m) == With(s, t, m);
    }
  }

  /** A due thread with an unanswered suspend signal can answer the current stop, whether or not the
      collector has got round to signalling it. */
  lemma Answer(c: Config, s: State, t: nat) returns (m: Thread)
    requires t in s.threads && Due(s.stopCount, s.threads[t]) && Stale(s.threads[t]) && s.stopCount % 2 == 0
    ensures Reaches(c, s, With(s, t, m).(sem := s.sem + 1)) && Answered(s.stopCount, m)
    ensures s.threads[t].pc == Entered ==> m.suspendPending == s.threads[t].suspendPending
    ensures s.threads[t].pc == Run ==> !m.suspendPending
  {
    hide Reaches, Apply;
    m := Enter(c, s, t);
    var s1 := With(s, t, m);
    m := SaveAndPark(c, s1, t);
    AndThen(c, s, s1, With(s1, t, m).(sem := s.sem + 1));
    assert With(s1, t, m) == With(s, t, m);
  }

  lemma SaveAndPark(c: Config, s: State, t: nat) returns (m: Thread)
    requires t in s.threads && Due(s.stopCount, s.threads[t]) && s.threads[t].pc == Entered
    ensures Reaches(c, s, With(s, t, m).(sem := s.sem + 1))
    ensures m == s.threads[t].(pc := Parked(s.stopCount), last := s.stopCount, saved := s.stopCount)
  {
    hide Reaches, Apply, Enabled;
    Here(c, s);
    m := ThenThread(c, s, s, Load(t));
    var s1 := With(s, t, m);
    m := ThenThread(c, s, s1, Compare(t));
    s1 := With(s1, t, m);
    m := ThenThread(c, s, s1, Post(t));
    s1 := With(s1, t, m).(sem := s.sem + 1);
    m := ThenThread(c, s, s1, Store(t));
    assert With(s1, t, m) == With(s, t, m).(sem := s.sem + 1);
  }

  /** Only the threads in w, the semaphore and the collector's place differ. */
  predicate Apart(s: State, w: set<nat>, s': State) {
    && s'.threads.Keys == s.threads.Keys && s'.stopCount == s.stopCount && s'.flag == s.flag
    && forall t :: t in s.threads && t !in w ==> s'.threads[t] == s.threads[t]
  }

  lemma {:induction false} AnswerAll(c: Config, s: State, w: set<nat>) returns (s': State)
    requires forall t :: t in w ==> t in s.threads && Due(s.stopCount, s.threads[t]) && Stale(s.threads[t])
    requires w != {} ==> s.stopCount % 2 == 0
    ensures Reaches(c, s, s') && Apart(s, w, s') && s'.col == s.col && s'.sem == s.sem + |w|
    ensures forall t :: t in w ==> Answered(s.stopCount, s'.threads[t])
    ensures forall t :: t in w && s.threads[t].pc == Entered
                        ==> s'.threads[t].suspendPending == s.threads[t].suspendPending
    ensures forall t :: t in w && s.threads[t].pc == Run ==> !s'.threads[t].suspendPending
    decreases w
  {
    hide Reaches, Due, Stale;
    s' := s;
    Here(c, s);
    if w != {} {
      var t :| t in w;
      var m := Answer(c, s, t);
      var s1 := With(s, t, m).(sem := s.sem + 1);
      s' := AnswerAll(c, s1, w - {t});
      AndThen(c, s, s1, s');
    }
  }

  /** A parked thread with a restart signal is free to go once the flag is down. */
  lemma WakeUp(c: Config, s: State, t: nat) returns (m: Thread)
    requires t in s.threads && s.threads[t].pc.Parked? && s.threads[t].restartPending && !s.flag
    ensures Reaches(c, s, With(s, t, m)) && m.pc.Leaving? && m.suspendPending == s.threads[t].suspendPending
  {
    hide Reaches, Apply;
    Here(c, s);
    m := ThenThread(c, s, s, Wake(t));
    var s1 := With(s, t, m);
    m := ThenThread(c, s, s1, ReadFlag(t));
    assert With(s1, t, m) == With(s, t, m);
  }

  /** It goes, having posted if there are resends. */
  lemma Go(c: Config, s: State, t: nat) returns (m: Thread)
    requires t in s.threads && s.threads[t].pc.Leaving?
    ensures Reaches(c, s, With(s, t, m).(sem := s.sem + if c.retry then 1 else 0))
    ensures m.pc == Run && m.suspendPending == s.threads[t].suspendPending
  {
    hide Reaches, Apply;
    Here(c, s);
    m := ThenThread(c, s, s, Leave(t));
    if c.retry {
      var s1 := With(s, t, m).(sem := s.sem + 1);
      m := ThenThread(c, s, s1, StoreRestarted(t));
      assert With(s1, t, m) == With(s, t, m).(sem := s.sem + 1);
    }
  }

  lemma Release(c: Config, s: State, t: nat) returns (m: Thread)
    requires t in s.threads && s.threads[t].pc.Parked? && s.threads[t].restartPending && !s.flag
    ensures Reaches(c, s, With(s, t, m).(sem := s.sem + if c.retry then 1 else 0))
    ensures m.pc == Run && m.suspendPending == s.threads[t].suspendPending
  {
    hide Reaches;
    m := WakeUp(c, s, t);
    var s1 := With(s, t, m);
    m := Go(c, s1, t);
    var s2 := With(s1, t, m).(sem := s1.sem + if c.retry then 1 else 0);
    AndThen(c, s, s1, s2);
    assert s2 == With(s, t, m).(sem := s.sem + if c.retry then 1 else 0);
  }

  lemma {:induction false} ReleaseAll(c: Config, s: State, w: set<nat>) returns (s': State)
    requires forall t :: t in w ==> t in s.threads && s.threads[t].pc.Parked? && s.threads[t].restartPending
    requires !s.flag
    ensures Reaches(c, s, s') && Apart(s, w, s') && s'.col == s.col
    ensures s'.sem == s.sem + if c.retry then |w| else 0
    ensures forall t :: t in w ==> s'.threads[t].pc == Run
    ensures forall t :: t in w ==> s'.threads[t].suspendPending == s.threads[t].suspendPending
    decreases w
  {
    hide Reaches;
    s' := s;
    Here(c, s);
    if w != {} {
      var t :| t in w;
      var m := Release(c, s, t);
      var s1 := With(s, t, m).(sem := s.sem + if c.retry then 1 else 0);
      s' := ReleaseAll(c, s1, w - {t});
      AndThen(c, s, s1, s');
    }
  }

  /** The first signalling pass, with no signal lost. */
  lemma {:induction false} ScanAll(c: Config, s: State) returns (s': State)
    requires s.col.Scan? && s.col.todo <= s.threads.Keys
    requires s.col.starting || forall t :: t in s.col.todo ==> s.threads[t].last != s.stopCount
    ensures Reaches(c, s, s') && Apart(s, s.col.todo, s') && s'.sem == s.sem
    ensures s'.col == Scan(s.col.starting, {}, s.col.n + |s.col.todo|)
    ensures forall t :: t in s.col.todo ==> s'.threads[t] == Signalled(s.threads[t], s.col.starting, false)
    decreases s.col.todo
  {
    hide Reaches;
    s' := s;
    Here(c, s);
    if s.col.todo != {} {
      var t :| t in s.col.todo;
      var s1 := Apply(c, s, ScanOne(t, false));
      Then(c, s, s, ScanOne(t, false));
      s' := ScanAll(c, s1);
      AndThen(c, s, s1, s');
    }
  }

  /** A resending pass, with no signal lost. */
  lemma {:induction false} RescanAll(c: Config, s: State) returns (s': State)
    requires s.col.Rescan? && s.col.todo <= s.threads.Keys && !s.col.starting
    requires forall t :: t in s.col.todo ==> s.threads[t].last != s.stopCount
    ensures Reaches(c, s, s') && Apart(s, s.col.todo, s') && s'.sem == s.sem
    ensures s'.col == Rescan(false, {}, s.col.sent + |s.col.todo|, s.col.n)
    ensures forall t :: t in s.col.todo ==> s'.threads[t] == Signalled(s.threads[t], false, false)
    decreases s.col.todo
  {
    hide Reaches;
    s' := s;
    Here(c, s);
    if s.col.todo != {} {
      var t :| t in s.col.todo;
      var s1 := Apply(c, s, RescanOne(t, false));
      Then(c, s, s, RescanOne(t, false));
      s' := RescanAll(c, s1);
      AndThen(c, s, s1, s');
    }
  }

  /** Acknowledgements enough let the collector through. */
  lemma {:induction false} TakeAll(c: Config, s: State)
    requires s.col.Barrier? && s.col.n <= s.sem
    ensures Reaches(c, s, s.(col := if s.col.starting then Idle else Stopped, sem := s.sem - s.col.n))
    decreases s.col.n
  {
    hide Reaches;
    Here(c, s);
    if s.col.n == 0 {
      Then(c, s, s, BarrierDone);
    } else {
      Then(c, s, s, Take);
      var s1 := Apply(c, s, Take);
      TakeAll(c, s1);
      AndThen(c, s, s1, s.(col := if s.col.starting then Idle else Stopped, sem := s.sem - s.col.n));
    }
  }

  /** So does a first pass whose acknowledgements are all there. */
  lemma Pass(c: Config, s: State) returns (s': State)
    requires c.retry && (if s.col.Scan? then s.col.todo == {} else s.col.Look?) && s.sem >= s.col.n
    requires s.sem == s.col.n || s.col.n == 0
    ensures Reaches(c, s, s')
    ensures s' == s.(col := if s.col.starting then Idle else Stopped, sem := s.sem - s.col.n)
  {
    hide Reaches;
    Here(c, s);
    var s1 := s;
    if s.col.Scan? {
      Then(c, s, s1, ScanDone);
      s1 := Apply(c, s1, ScanDone);
      Then(c, s, s1, TimedDone);
      s1 := Apply(c, s1, TimedDone);
    }
    Then(c, s, s1, LookDone);
    s1 := Apply(c, s1, LookDone);
    TakeAll(c, s1);
    s' := s.(col := if s.col.starting then Idle else Stopped, sem := s.sem - s.col.n);
    AndThen(c, s, s1, s');
  }

  /** Between stops every thread is out of its handler's hold, and due once the count moves on. */
  lemma DueAtStop(c: Config, s: State, t: nat)
    requires Inv(c, s) && c.retry && s.col == Idle && t in s.threads
    ensures Due(s.stopCount + 2, s.threads[t]) && s.stopCount % 2 == 0
  {
    assert PhaseOk(c, Idle, s.stopCount, s.threads[t]);
  }

  lemma AtIdle(c: Config, s: State)
    requires Inv(c, s) && s.col == Idle
    ensures s.sem == 0 && s.threads.Keys == c.ids && Enabled(c, s, BeginStop)
    ensures Apply(c, s, BeginStop) == s.(col := CountUp, stopCount := s.stopCount + 2)
  {
    hide PhaseOk, Posted, TodoOk;
  }

  /** A thread with a leftover suspend signal answers the new count before the collector looks at it,
      and is skipped although its acknowledgement is on the semaphore. */
  lemma LeftoverSkipped(c: Config, s: State, t: nat) returns (s1: State)
    requires Inv(c, s) && c.retry && s.col == Idle && t in s.threads && Stale(s.threads[t])
    ensures Reaches(c, Apply(c, s, BeginStop), s1)
    ensures s1.col == Scan(false, c.ids - {t}, 0) && s1.sem == 1 && s1.stopCount == s.stopCount + 2 && s1.flag
    ensures t in s1.threads && Answered(s1.stopCount, s1.threads[t])
    ensures s1.threads.Keys == c.ids && forall u :: u in c.ids && u != t ==> s1.threads[u] == s.threads[u]
  {
    hide Reaches, Inv, Due, Stale;
    AtIdle(c, s);
    DueAtStop(c, s, t);
    var s0 := Apply(c, s, BeginStop);
    var m := Answer(c, s0, t);
    s1 := With(s0, t, m).(sem := s0.sem + 1);
    Then(c, s0, s1, RaiseFlag);
    s1 := Apply(c, s1, RaiseFlag);
    Then(c, s0, s1, ScanOne(t, false));
    s1 := Apply(c, s1, ScanOne(t, false));
  }

  lemma SignalledDue(k: nat, m: Thread, lost: bool)
    requires Due(k, m)
    ensures Due(k, Signalled(m, false, lost)) && (!lost ==> Stale(Signalled(m, false, lost))) && m.last != k
    ensures !lost ==> Signalled(m, false, lost).suspendPending
    ensures !Held(k, m) && !Held(k, Signalled(m, false, lost)) && Signalled(m, false, lost).pc == m.pc
  {
  }

  /** A first pass over due threads in which only the signal to u may be lost. */
  lemma ScanThem(c: Config, s: State, u: nat, lost: bool) returns (s': State)
    requires s.col.Scan? && !s.col.starting && s.col.todo <= s.threads.Keys && u in s.col.todo
    requires forall v :: v in s.col.todo ==> Due(s.stopCount, s.threads[v])
    ensures Reaches(c, s, s') && Apart(s, s.col.todo, s') && s'.sem == s.sem
    ensures s'.col == Scan(false, {}, s.col.n + |s.col.todo|) && s'.threads[u] == Signalled(s.threads[u], false, lost)
    ensures forall v :: v in s.col.todo ==> Due(s.stopCount, s'.threads[v])
    ensures forall v :: v in s.col.todo && (lost ==> v != u) ==> Stale(s'.threads[v])
    ensures forall v :: v in s.col.todo ==> s'.threads[v].pc == s.threads[v].pc
  {
    hide Reaches, Due, Stale, Held, Signalled;
    forall v | v in s.col.todo
      ensures s.threads[v].last != s.stopCount && Stale(Signalled(s.threads[v], false, false))
      ensures Signalled(s.threads[v], false, lost).pc == Signalled(s.threads[v], false, false).pc == s.threads[v].pc
      ensures Due(s.stopCount, Signalled(s.threads[v], false, lost))
      ensures Due(s.stopCount, Signalled(s.threads[v], false, false))
    {
      SignalledDue(s.stopCount, s.threads[v], lost);
      SignalledDue(s.stopCount, s.threads[v], false);
    }
    var s0 := Apply(c, s, ScanOne(u, lost));
    Here(c, s);
    Then(c, s, s, ScanOne(u, lost));
    s' := ScanAll(c, s0);
    AndThen(c, s, s0, s');
  }

  /** With one acknowledgement too many, the others' need not all be waited for: that of u, whose signal may
      even be lost. */
  lemma OneTooMany(c: Config, s: State, t: nat, u: nat, lost: bool) returns (s': State, w: set<nat>)
    requires c.retry && s.col == Scan(false, c.ids - {t}, 0) && s.sem == 1 && s.flag
    requires s.threads.Keys == c.ids && t in c.ids && u in c.ids && (c.ids != {t} ==> u != t)
    requires s.stopCount % 2 == 0 && forall v :: v in c.ids && v != t ==> Due(s.stopCount, s.threads[v])
    requires Answered(s.stopCount, s.threads[t])
    ensures Reaches(c, s, s') && OneMissing(c, s', w) && s'.stopCount == s.stopCount
    ensures c.ids != {t} ==> u !in w && s'.threads[u] == Signalled(s.threads[u], false, lost)
  {
    hide Reaches, Due, Stale, Held, Signalled, Answered;
    if c.ids == {t} {
      s' := Pass(c, s);
      w := {t};
    } else {
      var rest := c.ids - {t} - {u};
      var s1 := ScanThem(c, s, u, lost);
      var s2 := AnswerAll(c, s1, rest);
      AndThen(c, s, s1, s2);
      s' := Pass(c, s2);
      AndThen(c, s, s2, s');
      w := c.ids - {u};
      assert |rest| == |c.ids| - 2;
      assert c.ids - w == {u};
    }
  }

  /** GC_stop_world has returned with the threads of w stopped and one acknowledgement too many: it lacks a
      thread or has one on the semaphore. */
  ghost predicate OneMissing(c: Config, s: State, w: set<nat>) {
    && s.col == Stopped && s.flag && s.threads.Keys == c.ids && s.stopCount % 2 == 0 && w <= c.ids
    && (forall v :: v in w ==> Answered(s.stopCount, s.threads[v]))
    && (forall v :: v in c.ids - w ==> Due(s.stopCount, s.threads[v]))
    && |w| == |c.ids| - 1 + s.sem && (|c.ids| >= 2 ==> s.sem == 0)
  }

  lemma OneMissingNotExact(c: Config, s: State, w: set<nat>)
    requires OneMissing(c, s, w)
    ensures !StopExact(s) && (|c.ids| >= 2 ==> exists u :: u in s.threads && !Held(s.stopCount, s.threads[u]))
  {
    if s.sem == 0 {
      assert w != c.ids;
      var u :| u in c.ids && u !in w;
      assert u in c.ids - w;
      SignalledDue(s.stopCount, s.threads[u], true);
      assert !Held(s.stopCount, s.threads[u]);
    }
  }

  /** A suspend signal left over from an earlier stop can end this one too early. */
  lemma LeftoverBreaksStop(c: Config, s: State, t: nat, u: nat, lost: bool) returns (s': State, w: set<nat>)
    requires Inv(c, s) && c.retry && s.col == Idle && t in s.threads && Stale(s.threads[t])
    requires u in s.threads && (c.ids != {t} ==> u != t)
    ensures Reaches(c, Apply(c, s, BeginStop), s') && s'.col == Stopped && !StopExact(s') && OneMissing(c, s', w)
    ensures |c.ids| >= 2 ==> exists v :: v in s'.threads && !Held(s'.stopCount, s'.threads[v])
    ensures c.ids != {t} ==> u in s'.threads && s'.threads[u] == Signalled(s.threads[u], false, lost) && u !in w
  {
    hide Reaches, Inv, Due, Stale;
    AtIdle(c, s);
    var s1 := LeftoverSkipped(c, s, t);
    forall v | v in s.threads ensures Due(s1.stopCount, s.threads[v]) && s1.stopCount % 2 == 0 { DueAtStop(c, s, v); }
    s', w := OneTooMany(c, s1, t, u, lost);
    OneMissingNotExact(c, s', w);
    AndThen(c, Apply(c, s, BeginStop), s1, s');
  }

  /** There is another thread than t if there can be. */
  lemma Another(ids: set<nat>, t: nat) returns (u: nat)
    requires t in ids
    ensures u in ids && (ids != {t} ==> u != t)
  {
    u := t;
    if ids != {t} {
      u :| u in ids && u != t;
    }
  }

  /** Whatever the threads, as long as there is one, a resent signal can be left over: it is sent
      while its thread is already in the handler. */
  lemma LeftoverArises(c: Config, s: State, t: nat) returns (s': State)
    requires Inv(c, s) && c.retry && s.col == Idle && Quiet(s) && t in s.threads
    ensures Reaches(c, Apply(c, s, BeginStop), s') && s'.col == Idle && t in s'.threads && Stale(s'.threads[t])
    ensures s'.threads.Keys == c.ids
    ensures forall u :: u in s.threads && u != t && s.threads[u].pc == Run ==> Running(s'.threads[u])
  {
    hide Reaches, Inv, Due, Held;
    AtIdle(c, s);
    var s0 := Apply(c, s, BeginStop);
    forall u | u in s.threads ensures Due(s0.stopCount, s.threads[u]) && s0.stopCount % 2 == 0 { DueAtStop(c, s, u); }
    var s1 := SignalledTwice(c, s0, t);
    var s2 := StoppedWithSignal(c, s1, t);
    AndThen(c, s0, s1, s2);
    s' := RestartedWithSignal(c, s2, t);
    AndThen(c, s0, s2, s');
  }

  /** From the new stop count to the resending pass, with t entering its handler in between. */
  lemma SignalledTwice(c: Config, s: State, t: nat) returns (s': State)
    requires c.retry && s.col == CountUp && s.sem == 0 && s.threads.Keys == c.ids && t in c.ids
    requires forall u :: u in c.ids ==> Due(s.stopCount, s.threads[u])
    ensures Reaches(c, s, s') && s'.col == Look(false, |c.ids|) && s'.sem == 0 && s'.threads.Keys == c.ids && s'.flag
    ensures s'.stopCount == s.stopCount && s'.threads[t].pc == Entered && s'.threads[t].suspendPending
    ensures forall u :: u in c.ids ==> Due(s.stopCount, s'.threads[u]) && Stale(s'.threads[u])
    ensures forall u :: u in c.ids && u != t ==> s'.threads[u].pc == s.threads[u].pc
  {
    hide Reaches, Due, Stale, Held, Signalled;
    Here(c, s);
    Then(c, s, s, RaiseFlag);
    var s0 := Apply(c, s, RaiseFlag);
    var s1 := ScanThem(c, s0, t, false);
    AndThen(c, s, s0, s1);
    var m := Enter(c, s1, t);
    var s2 := With(s1, t, m);
    AndThen(c, s, s1, s2);
    s' := Resent(c, s2);
    AndThen(c, s, s2, s');
  }

  lemma Resent(c: Config, s: State) returns (s': State)
    requires c.retry && s.col == Scan(false, {}, |c.ids|) && s.sem == 0 && s.threads.Keys == c.ids && c.ids != {}
    requires forall u :: u in c.ids ==> Due(s.stopCount, s.threads[u])
    ensures Reaches(c, s, s') && s'.col == Look(false, |c.ids|) && s'.sem == 0 && Apart(s, c.ids, s')
    ensures forall u :: u in c.ids ==> Due(s.stopCount, s'.threads[u]) && Stale(s'.threads[u])
    ensures forall u :: u in c.ids ==> s'.threads[u].pc == s.threads[u].pc && s'.threads[u].suspendPending
  {
    hide Reaches, Due, Stale, Held, Signalled;
    forall u | u in c.ids
      ensures s.threads[u].last != s.stopCount && Signalled(s.threads[u], false, false).suspendPending
      ensures Signalled(s.threads[u], false, false).pc == s.threads[u].pc
      ensures Due(s.stopCount, Signalled(s.threads[u], false, false)) && Stale(Signalled(s.threads[u], false, false))
    {
      SignalledDue(s.stopCount, s.threads[u], false);
    }
    var s1 := ResendBegun(c, s);
    s' := RescanAll(c, s1);
    AndThen(c, s, s1, s');
    ResendEnded(c, s');
    s1, s' := s', s'.(col := Look(false, |c.ids|));
    AndThen(c, s, s1, s');
  }

  lemma ResendEnded(c: Config, s: State)
    requires s.col.Rescan? && s.col.todo == {} && s.col.sent >= s.col.n - s.sem
    ensures Reaches(c, s, s.(col := Look(s.col.starting, s.col.n)))
  {
    hide Reaches;
    Here(c, s);
    Then(c, s, s, RescanDone);
    Then(c, s, Apply(c, s, RescanDone), Decide);
  }

  /** The first wait times out. */
  lemma ResendBegun(c: Config, s: State) returns (s': State)
    requires c.retry && s.col.Scan? && s.col.todo == {} && s.sem != s.col.n && s.col.n > 0
    ensures s' == s.(col := Rescan(s.col.starting, c.ids, 0, s.col.n)) && Reaches(c, s, s')
  {
    hide Reaches;
    Here(c, s);
    Then(c, s, s, ScanDone);
    s' := Apply(c, s, ScanDone);
    Then(c, s, s', TimedDone);
    s' := Apply(c, s', TimedDone);
    Then(c, s, s', Resend);
    s' := Apply(c, s', Resend);
  }

  /** Every thread answers; t keeps the signal that reached it inside the handler. */
  lemma StoppedWithSignal(c: Config, s: State, t: nat) returns (s': State)
    requires c.retry && s.col == Look(false, |c.ids|) && s.sem == 0 && s.threads.Keys == c.ids && t in c.ids && s.flag
    requires s.stopCount % 2 == 0 && s.threads[t].pc == Entered && s.threads[t].suspendPending
    requires forall u :: u in c.ids ==> Due(s.stopCount, s.threads[u]) && Stale(s.threads[u])
    ensures Reaches(c, s, s') && s'.col == Stopped && s'.sem == 0 && s'.threads.Keys == c.ids
    ensures s'.threads[t].suspendPending && forall u :: u in c.ids ==> s'.threads[u].pc.Parked?
    ensures forall u :: u in c.ids && s.threads[u].pc == Run ==> !s'.threads[u].suspendPending
  {
    hide Reaches, Due, Stale;
    var s1 := AnswerAll(c, s, c.ids);
    s' := Pass(c, s1);
    AndThen(c, s, s1, s');
  }

  lemma RestartedWithSignal(c: Config, s: State, t: nat) returns (s': State)
    requires c.retry && s.col == Stopped && s.sem == 0 && s.threads.Keys == c.ids && t in c.ids
    requires s.threads[t].suspendPending && forall u :: u in c.ids ==> s.threads[u].pc.Parked?
    ensures Reaches(c, s, s') && s'.col == Idle && s'.threads.Keys == c.ids && s'.threads[t].suspendPending
    ensures forall u :: u in c.ids ==> s'.threads[u].pc == Run
    ensures forall u :: u in c.ids ==> s'.threads[u].suspendPending == s.threads[u].suspendPending
  {
    hide Reaches;
    Here(c, s);
    Then(c, s, s, BeginStart);
    var s1 := Apply(c, s, BeginStart);
    var s2 := ScanAll(c, s1);
    AndThen(c, s, s1, s2);
    s1 := ReleaseAll(c, s2, c.ids);
    AndThen(c, s, s2, s1);
    s' := Pass(c, s1);
    AndThen(c, s, s1, s');
  }

  /** The runs of one GC_stop_world from s, and of what follows until the next one. */
  ghost predicate OneStop(c: Config, s: State, acts: seq<Action>) {
    acts != [] && Enables(c, s, acts) && acts[0] == BeginStop && BeginStop !in acts[1..]
  }

  lemma {:induction false} NoStopCareful(c: Config, s: State, acts: seq<Action>)
    requires Enables(c, s, acts) && BeginStop !in acts
    ensures Careful(c, s, acts)
    decreases |acts|
  {
    hide Apply, Enabled, Quiet;
    if acts != [] { NoStopCareful(c, Apply(c, s, acts[0]), acts[1..]); }
  }

  /** GC_stop_world keeps its promise in every run from s exactly when no suspend signal of an earlier
      stop is unanswered at s. */
  lemma StopExactIffQuiet(c: Config, s: State)
    requires Inv(c, s) && s.col == Idle
    ensures (forall acts :: OneStop(c, s, acts) ==> StopExact(After(c, s, acts))) <==> Quiet(s)
  {
    hide StopExact, Careful, Apply, Stale;
    var s0 := Apply(c, s, BeginStop);
    if Quiet(s) {
      StepInv(c, s, BeginStop);
      forall acts | OneStop(c, s, acts) ensures StopExact(After(c, s, acts)) {
        NoStopCareful(c, s0, acts[1..]);
        CarefulInv(c, s0, acts[1..]);
        InvExact(c, After(c, s, acts));
      }
    } else {
      if !c.retry { QuietUnlessRetrying(c, s); }
      var t :| t in s.threads && Stale(s.threads[t]);
      var u := Another(c.ids, t);
      var s', w := LeftoverBreaksStop(c, s, t, u, false);
      var acts :| Enables(c, s0, acts) && After(c, s0, acts) == s' && BeginStop !in acts;
      assert ([BeginStop] + acts)[1..] == acts;
      assert OneStop(c, s, [BeginStop] + acts) && !StopExact(After(c, s, [BeginStop] + acts));
    }
  }

  /** One whole stop and what follows, as a run. */
  lemma StopThen(c: Config, s: State, s': State) returns (acts: seq<Action>)
    requires s.col == Idle && Reaches(c, Apply(c, s, BeginStop), s')
    ensures Enables(c, s, acts) && After(c, s, acts) == s'
    ensures Inv(c, s) && Quiet(s) ==> Inv(c, s')
  {
    hide Inv, Quiet, Careful, Apply;
    var s0 := Apply(c, s, BeginStop);
    var more :| Enables(c, s0, more) && After(c, s0, more) == s' && BeginStop !in more;
    acts := [BeginStop] + more;
    assert acts[1..] == more;
    if Inv(c, s) && Quiet(s) {
      StepInv(c, s, BeginStop);
      NoStopCareful(c, s0, more);
      CarefulInv(c, s0, more);
    }
  }

  lemma InitQuiet(c: Config)
    ensures Quiet(Init(c)) && Init(c).col == Idle && Init(c).threads.Keys == c.ids
  {
  }

  /** So with resends, for any threads at all, some run from the beginning breaks the promise, and if
      there are two threads GC_stop_world returns there while one of them is not stopped. */
  lemma RetryCanBreakStop(c: Config) returns (acts: seq<Action>)
    requires c.retry && c.ids != {}
    ensures Enables(c, Init(c), acts) && !StopExact(After(c, Init(c), acts))
    ensures var s := After(c, Init(c), acts);
            |c.ids| >= 2 ==> s.col == Stopped && exists u :: u in s.threads && !Held(s.stopCount, s.threads[u])
  {
    hide StopExact, Held, Stale, Inv, Quiet, Reaches, Init, Apply, Enables, After;
    InitInv(c);
    InitQuiet(c);
    var t :| t in c.ids;
    var s1 := LeftoverArises(c, Init(c), t);
    var first := StopThen(c, Init(c), s1);
    var u := Another(c.ids, t);
    var s2, w := LeftoverBreaksStop(c, s1, t, u, false);
    var second := StopThen(c, s1, s2);
    AfterBoth(c, Init(c), first, second);
    acts := first + second;
  }
}
