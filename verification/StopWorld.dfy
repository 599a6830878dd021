/**
 The stop-the-world handshake of tool/gec/backend/c/boehm_gc/pthread_stop_world.c as a state
 machine: the collector publishes a stop count, signals the other threads and counts their
 acknowledgements on a semaphore, resending signals that seem lost; a thread acknowledges, parks
 and is restarted by another signal.  A step is one shared access of one thread.
 */
module StopWorld {
  import opened Sets

  /** Where a thread is; `my` is the stop count its suspend handler loaded. */
  datatype Pc =
    | Run                 // ordinary code
    | Entered             // suspend handler called, stop count not yet loaded
    | Loaded(my: nat)     // about to compare with its last stop count
    | Saved(my: nat)      // stack pointer stored, about to post the acknowledgement
    | Acked(my: nat)      // posted, about to store its last stop count
    | Parked(my: nat)     // in sigsuspend
    | Awake(my: nat)      // restart signal received, about to load the stopped flag
    | FlagSeen(my: nat)   // the flag was set, about to load the stop count
    | Leaving(my: nat)    // free to go, about to acknowledge the restart (if retrying)
    | LeftPosted(my: nat) // posted, about to mark its last stop count as restarted

  /** `last` is last_stop_count (odd once restarted), `saved` the stop count for which the stack
      pointer was stored, and the pending suspend and restart signals. */
  datatype Thread = Thread(pc: Pc, last: nat, saved: nat, suspendPending: bool, restartPending: bool)

  /** Where the collector is; `n` is the number of acknowledgements still to wait for. */
  datatype Collector =
    | Idle
    | CountUp                                                     // stop count stored, flag not yet
    | Scan(starting: bool, todo: set<nat>, n: nat)                // first GC_suspend_all / GC_restart_all
    | Timed(starting: bool, n: nat)                               // waiting with a timeout
    | Look(starting: bool, n: nat)                                // head of the resend loop
    | Rescan(starting: bool, todo: set<nat>, sent: nat, n: nat)   // resending
    | Recheck(starting: bool, sent: nat, n: nat)                  // enough signals sent?
    | Barrier(starting: bool, n: nat)
    | Stopped                                                     // GC_stop_world has returned

  datatype State = State(threads: map<nat, Thread>, col: Collector, stopCount: nat, flag: bool, sem: nat,
                         corrected: bool)

  /** The other live, unblocked threads, and GC_retry_signals. */
  datatype Config = Config(ids: set<nat>, retry: bool)

  function Init(c: Config): State {
    State(map t | t in c.ids :: Thread(Run, 0, 0, false, false), Idle, 0, false, 0, false)
  }

  /** A stop count without the restarted bit. */
  function Base(n: nat): nat {
    n - n % 2
  }

  datatype Action =
    // the collector
    | BeginStop | RaiseFlag | BeginStart
    | ScanOne(t: nat, lost: bool) | ScanDone
    | TakeTimed | TimedDone
    | LookDone | Resend | RescanOne(t: nat, lost: bool) | RescanDone | Decide
    | Take | BarrierDone
    // a thread
    | Deliver(t: nat) | Load(t: nat) | Compare(t: nat) | Post(t: nat) | Store(t: nat)
    | Wake(t: nat) | ReadFlag(t: nat) | ReadCount(t: nat) | Leave(t: nat) | StoreRestarted(t: nat)
    | Ignore(t: nat)

  predicate OfThread(a: Action) {
    a.Deliver? || a.Load? || a.Compare? || a.Post? || a.Store? || a.Wake? || a.ReadFlag? || a.ReadCount? || a.Leave?
    || a.StoreRestarted? || a.Ignore?
  }

  predicate ThreadEnabled(m: Thread, a: Action) {
    match a
    case Deliver(_) => m.pc == Run && m.suspendPending
    case Load(_) => m.pc == Entered
    case Compare(_) => m.pc.Loaded?
    case Post(_) => m.pc.Saved?
    case Store(_) => m.pc.Acked?
    case Wake(_) => m.pc.Parked? && m.restartPending
    case ReadFlag(_) => m.pc.Awake?
    case ReadCount(_) => m.pc.FlagSeen?
    case Leave(_) => m.pc.Leaving?
    case StoreRestarted(_) => m.pc.LeftPosted?
    case Ignore(_) => m.pc == Run && m.restartPending
    case _ => false
  }

  predicate Enabled(c: Config, s: State, a: Action) {
    if OfThread(a) then a.t in s.threads && ThreadEnabled(s.threads[a.t], a)
    else
      match a
      case BeginStop => s.col == Idle
      case RaiseFlag => s.col == CountUp
      case BeginStart => s.col == Stopped
      case ScanOne(t, _) => s.col.Scan? && t in s.col.todo && t in s.threads
      case ScanDone => s.col.Scan? && s.col.todo == {}
      case TakeTimed => s.col.Timed? && s.col.n > 0 && s.sem > 0
      case TimedDone => s.col.Timed?
      case LookDone => s.col.Look? && (s.col.n == 0 || s.sem == s.col.n)
      case Resend => s.col.Look? && s.col.n > 0 && s.sem != s.col.n
      case RescanOne(t, _) => s.col.Rescan? && t in s.col.todo && t in s.threads
      case RescanDone => s.col.Rescan? && s.col.todo == {}
      case Decide => s.col.Recheck?
      case Take => s.col.Barrier? && s.col.n > 0 && s.sem > 0
      case BarrierDone => s.col.Barrier? && s.col.n == 0
      case _ => false
  }

  /** The step posts the semaphore. */
  predicate Posts(c: Config, a: Action) {
    a.Post? || (a.Leave? && c.retry)
  }

  /** The thread after one of its own steps; k is the stop count it would load. */
  function Moved(c: Config, k: nat, flag: bool, m: Thread, a: Action): Thread
    requires ThreadEnabled(m, a)
  {
    match a
    case Deliver(_) => m.(pc := Entered, suspendPending := false)
    case Load(_) => m.(pc := Loaded(k))
    case Compare(_) => if Base(m.last) == m.pc.my then m.(pc := Run) else m.(pc := Saved(m.pc.my), saved := m.pc.my)
    case Post(_) => m.(pc := Acked(m.pc.my))
    case Store(_) => m.(pc := Parked(m.pc.my), last := m.pc.my)
    case Wake(_) => m.(pc := Awake(m.pc.my), restartPending := false)
    case ReadFlag(_) => if flag then m.(pc := FlagSeen(m.pc.my)) else m.(pc := Leaving(m.pc.my))
    case ReadCount(_) => if k == m.pc.my then m.(pc := Parked(m.pc.my)) else m.(pc := Leaving(m.pc.my))
    case Leave(_) => if c.retry then m.(pc := LeftPosted(m.pc.my)) else m.(pc := Run)
    case StoreRestarted(_) => m.(pc := Run, last := m.pc.my + 1)
    case Ignore(_) => m.(restartPending := false)
  }

  /** The signal of the current phase, unless it is lost. */
  function Signalled(m: Thread, starting: bool, lost: bool): Thread {
    if lost then m
    else if starting then m.(restartPending := true)
    else m.(suspendPending := true)
  }

  /** The thread needs no signal of this phase any more, as far as its last stop count tells. */
  predicate Settled(s: State, m: Thread, starting: bool) {
    m.last == if starting then s.stopCount + 1 else s.stopCount
  }

  function Apply(c: Config, s: State, a: Action): State
    requires Enabled(c, s, a)
  {
    if OfThread(a) then
      s.(threads := s.threads[a.t := Moved(c, s.stopCount, s.flag, s.threads[a.t], a)],
         sem := if Posts(c, a) then s.sem + 1 else s.sem)
    else
      match a
      case BeginStop => s.(col := CountUp, stopCount := s.stopCount + 2)
      case RaiseFlag => s.(col := Scan(false, c.ids, 0), flag := true)
      case BeginStart => s.(col := Scan(true, c.ids, 0), flag := false)
      case ScanOne(t, lost) =>
        var Scan(starting, todo, n) := s.col;
        if !starting && Settled(s, s.threads[t], false) then s.(col := Scan(starting, todo - {t}, n))
        else s.(col := Scan(starting, todo - {t}, n + 1),
                threads := s.threads[t := Signalled(s.threads[t], starting, lost)])
      case ScanDone =>
        if c.retry then s.(col := Timed(s.col.starting, s.col.n))
        else if s.col.starting then s.(col := Idle)
        else s.(col := Barrier(false, s.col.n))
      case TakeTimed => s.(col := Timed(s.col.starting, s.col.n - 1), sem := s.sem - 1)
      case TimedDone => s.(col := Look(s.col.starting, s.col.n))
      case LookDone => s.(col := Barrier(s.col.starting, s.col.n))
      case Resend => s.(col := Rescan(s.col.starting, c.ids, 0, s.col.n))
      case RescanOne(t, lost) =>
        var Rescan(starting, todo, sent, n) := s.col;
        if Settled(s, s.threads[t], starting) then s.(col := Rescan(starting, todo - {t}, sent, n))
        else s.(col := Rescan(starting, todo - {t}, sent + 1, n),
                threads := s.threads[t := Signalled(s.threads[t], starting, lost)])
      case RescanDone => s.(col := Recheck(s.col.starting, s.col.sent, s.col.n))
      case Decide =>
        if s.col.sent < s.col.n - s.sem then s.(col := Look(s.col.starting, s.sem + s.col.sent), corrected := true)
        else s.(col := Look(s.col.starting, s.col.n))
      case Take => s.(col := Barrier(s.col.starting, s.col.n - 1), sem := s.sem - 1)
      case BarrierDone => s.(col := if s.col.starting then Idle else Stopped)
  }

  // ---------- what is true of one thread in each phase (k is the current stop count)

  /** The thread posted its acknowledgement of stop k. */
  predicate Acknowledged(k: nat, m: Thread) {
    Base(m.last) == k || m.pc == Acked(k)
  }

  /** The thread acknowledged stop k and is out of its hold again. */
  predicate Restarted(k: nat, m: Thread) {
    Base(m.last) == k && (m.pc == Run || m.pc == Entered || m.pc.Loaded? || m.pc.LeftPosted?)
  }

  /** A suspend signal has not been answered yet. */
  predicate Stale(m: Thread) {
    m.suspendPending || m.pc == Entered
  }

  /** The thread is inside the suspend handler, held by stop k. */
  predicate Held(k: nat, m: Thread) {
    m.pc == Acked(k) || m.pc == Parked(k) || m.pc == Awake(k) || m.pc == FlagSeen(k)
  }

  /** Without resending, a stop sends a thread at most one suspend signal. */
  predicate SingleSignal(k: nat, m: Thread) {
    && (Acknowledged(k, m) ==> !Stale(m) && !m.pc.Loaded?)
    && (m.pc == Entered || m.pc.Loaded? || m.pc.Saved? ==> !m.suspendPending)
    && (m.pc.Loaded? ==> m.pc.my == k)
  }

  predicate ThreadOk(c: Config, k: nat, m: Thread) {
    && k % 2 == 0
    && Base(m.last) <= k
    && (Acknowledged(k, m) ==> m.saved == k)
    && (!c.retry ==> SingleSignal(k, m))
    && match m.pc
       case Run => true
       case Entered => true
       case Loaded(my) => my <= k && my % 2 == 0 && (my < k ==> Base(m.last) == my)
       case Saved(my) => my == k && Base(m.last) < my && m.saved == my
       case Acked(my) => my <= k && my % 2 == 0 && Base(m.last) < my
       case Parked(my) => m.last == my && my % 2 == 0
       case Awake(my) => m.last == my && my % 2 == 0
       case FlagSeen(my) => m.last == my && my % 2 == 0
       case Leaving(my) => m.last == my && my % 2 == 0
       case LeftPosted(my) => m.last == my && my % 2 == 0 && c.retry
  }

  /** During stop k: not acknowledged yet, and about to post nothing but that. */
  predicate NotYet(c: Config, k: nat, m: Thread) {
    !Acknowledged(k, m)
    && (c.retry ==> m.pc == Run || m.pc == Entered || m.pc.Loaded? || m.pc.Saved? || m.pc.LeftPosted?)
  }

  /** Not even signalled for stop k. */
  predicate Untouched(c: Config, k: nat, m: Thread) {
    NotYet(c, k, m) && !Stale(m) && m.pc != Loaded(k) && !m.pc.Saved?
  }

  predicate Stopping(col: Collector) {
    (col.Scan? || col.Timed? || col.Look? || col.Rescan? || col.Recheck? || col.Barrier?) && !col.starting
  }

  predicate Starting(col: Collector) {
    (col.Scan? || col.Timed? || col.Look? || col.Rescan? || col.Recheck? || col.Barrier?) && col.starting
  }

  predicate PhaseOk(c: Config, col: Collector, k: nat, m: Thread) {
    && ThreadOk(c, k, m)
    && (col == Idle ==> Acknowledged(k, m) && (c.retry ==> Restarted(k, m)))
    && (col == CountUp ==> Untouched(c, k, m))
    && (Stopping(col) ==> if Acknowledged(k, m) then Held(k, m) else NotYet(c, k, m))
    && (col == Stopped ==> Held(k, m) && Acknowledged(k, m))
    && (Starting(col) ==> Acknowledged(k, m) && (c.retry ==> Held(k, m) || m.pc == Leaving(k) || Restarted(k, m)))
  }

  // ---------- what is true of the whole

  ghost function Acks(s: State): set<nat> {
    set t | t in s.threads && Acknowledged(s.stopCount, s.threads[t])
  }

  ghost function Restarts(s: State): set<nat> {
    set t | t in s.threads && Restarted(s.stopCount, s.threads[t])
  }

  /** The threads that have posted in the current phase. */
  ghost function Posted(s: State, starting: bool): set<nat> {
    if starting then Restarts(s) else Acks(s)
  }

  /** Every acknowledgement is on the semaphore or was taken off by the collector. */
  predicate Accounted(c: Config, sem: nat, n: nat, posted: set<nat>) {
    n <= |c.ids| && sem + (|c.ids| - n) == |posted|
  }

  /** What the collector's counters are worth when the threads of `posted` have posted in this phase. */
  predicate Counts(c: Config, col: Collector, flag: bool, sem: nat, posted: set<nat>) {
    match col
    case Idle => sem == 0 && !flag
    case CountUp => sem == 0 && !flag
    case Stopped => sem == 0 && flag
    case Scan(starting, todo, n) =>
      && flag == !starting && todo <= c.ids && n == |c.ids - todo|
      && (if starting && !c.retry then sem == 0 else sem == |posted|)
    case Timed(starting, n) => c.retry && flag == !starting && Accounted(c, sem, n, posted)
    case Look(starting, n) => c.retry && flag == !starting && Accounted(c, sem, n, posted)
    case Rescan(starting, todo, sent, n) =>
      c.retry && flag == !starting && Accounted(c, sem, n, posted) && todo <= c.ids && sent >= |(c.ids - todo) - posted|
    case Recheck(starting, sent, n) =>
      c.retry && flag == !starting && Accounted(c, sem, n, posted) && sent >= |c.ids - posted|
    case Barrier(starting, n) => (c.retry || !starting) && flag == !starting && Accounted(c, sem, n, posted)
  }

  /** Threads not yet looked at in the first pass of a stop are untouched. */
  ghost predicate TodoOk(c: Config, s: State) {
    s.col.Scan? && !s.col.starting ==>
      forall t :: t in s.col.todo && t in s.threads ==> Untouched(c, s.stopCount, s.threads[t])
  }

  ghost predicate ColOk(c: Config, s: State) {
    Counts(c, s.col, s.flag, s.sem, Posted(s, Starting(s.col))) && TodoOk(c, s)
  }

  ghost predicate Inv(c: Config, s: State) {
    !s.corrected && ThreadsOk(c, s) && ColOk(c, s)
  }

  ghost predicate ThreadsOk(c: Config, s: State) {
    s.threads.Keys == c.ids && forall t :: t in s.threads ==> PhaseOk(c, s.col, s.stopCount, s.threads[t])
  }

  /** No suspend signal of an earlier stop is still unanswered. */
  ghost predicate Quiet(s: State) {
    forall t :: t in s.threads ==> !Stale(s.threads[t])
  }

  lemma InitInv(c: Config)
    ensures Inv(c, Init(c))
  {
  }

  // ---------- steps of a thread

  predicate Raised(col: Collector) {
    Stopping(col) || col == Stopped
  }

  /** The steps of the suspend handler up to where the thread parks. */
  lemma EnteringPhase(c: Config, col: Collector, k: nat, m: Thread, a: Action)
    requires PhaseOk(c, col, k, m) && ThreadEnabled(m, a)
    requires a.Deliver? || a.Load? || a.Compare? || a.Post? || a.Store?
    ensures PhaseOk(c, col, k, Moved(c, k, Raised(col), m, a))
  {
  }

  /** The steps from there on up to where it is free to go. */
  lemma WakingPhase(c: Config, col: Collector, k: nat, m: Thread, a: Action)
    requires PhaseOk(c, col, k, m) && ThreadEnabled(m, a)
    requires a.Wake? || a.ReadFlag? || a.ReadCount?
    ensures PhaseOk(c, col, k, Moved(c, k, Raised(col), m, a))
  {
  }

  /** The others. */
  lemma LeavingPhase(c: Config, col: Collector, k: nat, m: Thread, a: Action)
    requires PhaseOk(c, col, k, m) && ThreadEnabled(m, a)
    requires a.Leave? || a.StoreRestarted? || a.Ignore?
    ensures PhaseOk(c, col, k, Moved(c, k, Raised(col), m, a))
  {
  }

  /** A thread's own step keeps what its phase promises. */
  lemma ThreadPhase(c: Config, col: Collector, k: nat, m: Thread, a: Action)
    requires PhaseOk(c, col, k, m) && ThreadEnabled(m, a)
    ensures PhaseOk(c, col, k, Moved(c, k, Raised(col), m, a))
  {
    hide PhaseOk, Moved, Raised;
    if a.Deliver? || a.Load? || a.Compare? || a.Post? || a.Store? {
      EnteringPhase(c, col, k, m, a);
    } else if a.Wake? || a.ReadFlag? || a.ReadCount? {
      WakingPhase(c, col, k, m, a);
    } else {
      LeavingPhase(c, col, k, m, a);
    }
  }

  lemma ThreadUntouched(c: Config, col: Collector, k: nat, m: Thread, a: Action)
    requires PhaseOk(c, col, k, m) && ThreadEnabled(m, a) && Untouched(c, k, m)
    ensures Untouched(c, k, Moved(c, k, Raised(col), m, a))
  {
  }

  /** While stopping, a post is exactly a new acknowledgement. */
  lemma PostsStopping(c: Config, col: Collector, k: nat, m: Thread, a: Action)
    requires PhaseOk(c, col, k, m) && ThreadEnabled(m, a) && Stopping(col)
    ensures Acknowledged(k, Moved(c, k, true, m, a)) <==> Acknowledged(k, m) || Posts(c, a)
    ensures !(Acknowledged(k, m) && Posts(c, a))
  {
  }

  /** While starting with resends, a post is exactly a new restart. */
  lemma PostsStarting(c: Config, col: Collector, k: nat, m: Thread, a: Action)
    requires PhaseOk(c, col, k, m) && ThreadEnabled(m, a) && Starting(col) && c.retry
    ensures Restarted(k, Moved(c, k, false, m, a)) <==> Restarted(k, m) || Posts(c, a)
    ensures !(Restarted(k, m) && Posts(c, a))
  {
  }

  /** Nobody posts otherwise. */
  lemma NoPosts(c: Config, col: Collector, k: nat, m: Thread, a: Action)
    requires PhaseOk(c, col, k, m) && ThreadEnabled(m, a) && !Stopping(col) && !(Starting(col) && c.retry)
    ensures !Posts(c, a)
  {
  }

  /** One step of a thread, seen from outside. */
  lemma ThreadSteps(c: Config, s: State, a: Action)
    requires Inv(c, s) && Enabled(c, s, a) && OfThread(a)
    ensures Raised(s.col) == s.flag && a.t in s.threads && ThreadEnabled(s.threads[a.t], a)
    ensures PhaseOk(c, s.col, s.stopCount, s.threads[a.t])
    ensures var m' := Moved(c, s.stopCount, s.flag, s.threads[a.t], a);
            Apply(c, s, a) == s.(threads := s.threads[a.t := m'], sem := s.sem + if Posts(c, a) then 1 else 0)
  {
    hide PhaseOk, TodoOk, Posted;
  }

  /** What a thread's step does to the threads that have posted in this phase. */
  lemma PostedAfter(c: Config, s: State, a: Action, starting: bool)
    requires Inv(c, s) && Enabled(c, s, a) && OfThread(a)
    requires if starting then Starting(s.col) && c.retry else Stopping(s.col)
    ensures var p, p' := Posted(s, starting), Posted(Apply(c, s, a), starting);
            p' == (if Posts(c, a) then p + {a.t} else p) && (Posts(c, a) ==> a.t !in p)
            && |p'| == |p| + if Posts(c, a) then 1 else 0
  {
    hide PhaseOk, Restarted, Acknowledged, ColOk, Moved, Enabled, ThreadEnabled, Apply, Posts;
    ThreadSteps(c, s, a);
    if starting { PostsStarting(c, s.col, s.stopCount, s.threads[a.t], a); }
    else { PostsStopping(c, s.col, s.stopCount, s.threads[a.t], a); }
    var p, p' := Posted(s, starting), Posted(Apply(c, s, a), starting);
    assert forall t :: t in p' <==> t in if Posts(c, a) then p + {a.t} else p;
  }

  lemma ThreadStepThreads(c: Config, s: State, a: Action)
    requires Inv(c, s) && Enabled(c, s, a) && OfThread(a)
    ensures ThreadsOk(c, Apply(c, s, a))
    ensures forall t :: t in s.threads && Untouched(c, s.stopCount, s.threads[t])
                        ==> Untouched(c, s.stopCount, Apply(c, s, a).threads[t])
  {
    hide PhaseOk, Moved, Enabled, ThreadEnabled, Apply, Posts, Untouched, ColOk;
    ThreadSteps(c, s, a);
    var m := s.threads[a.t];
    ThreadPhase(c, s.col, s.stopCount, m, a);
    if Untouched(c, s.stopCount, m) { ThreadUntouched(c, s.col, s.stopCount, m, a); }
  }

  /** The counters stay right when some threads post and the semaphore goes up by as many. */
  lemma PostCounts(c: Config, col: Collector, flag: bool, sem: nat, posted: set<nat>, sem': nat, posted': set<nat>)
    requires Counts(c, col, flag, sem, posted) && posted <= posted' && sem' + |posted| == sem + |posted'|
    requires Stopping(col) || (Starting(col) && c.retry)
    ensures Counts(c, col, flag, sem', posted')
  {
    SubsetSize(posted, posted');
    if col.Rescan? {
      SubsetSize((c.ids - col.todo) - posted', (c.ids - col.todo) - posted);
    } else if col.Recheck? {
      SubsetSize(c.ids - posted', c.ids - posted);
    }
  }

  /** Otherwise they do not depend on who posted. */
  lemma QuietCounts(c: Config, col: Collector, flag: bool, sem: nat, posted: set<nat>, posted': set<nat>)
    requires Counts(c, col, flag, sem, posted) && !Stopping(col) && !(Starting(col) && c.retry)
    ensures Counts(c, col, flag, sem, posted')
  {
  }

  lemma ThreadStepCounts(c: Config, s: State, a: Action)
    requires Inv(c, s) && Enabled(c, s, a) && OfThread(a)
    ensures var s' := Apply(c, s, a); Counts(c, s'.col, s'.flag, s'.sem, Posted(s', Starting(s'.col)))
  {
    hide ThreadsOk, TodoOk, Moved, Enabled, ThreadEnabled, Apply, Posts, Posted, Counts;
    ThreadSteps(c, s, a);
    var s', starting := Apply(c, s, a), Starting(s.col);
    if Stopping(s.col) || (starting && c.retry) {
      PostedAfter(c, s, a, starting);
      PostCounts(c, s.col, s.flag, s.sem, Posted(s, starting), s'.sem, Posted(s', starting));
    } else {
      NoPosts(c, s.col, s.stopCount, s.threads[a.t], a);
      QuietCounts(c, s.col, s.flag, s.sem, Posted(s, starting), Posted(s', starting));
    }
  }

  /** A step of any thread keeps the invariant. */
  lemma ThreadStepInv(c: Config, s: State, a: Action)
    requires Inv(c, s) && Enabled(c, s, a) && OfThread(a)
    ensures Inv(c, Apply(c, s, a))
  {
    hide ThreadsOk, Moved, Enabled, ThreadEnabled, Apply, Posts, Posted, Untouched, Counts;
    ThreadSteps(c, s, a);
    ThreadStepThreads(c, s, a);
    ThreadStepCounts(c, s, a);
  }

  // ---------- steps of the collector

  /** Publishing the next stop count finds no thread that could acknowledge it unasked. */
  lemma BeginStopInv(c: Config, s: State)
    requires Inv(c, s) && s.col == Idle && Quiet(s)
    ensures Inv(c, Apply(c, s, BeginStop))
  {
    hide Posted;
    forall t | t in s.threads ensures PhaseOk(c, CountUp, s.stopCount + 2, s.threads[t]) {
      assert PhaseOk(c, Idle, s.stopCount, s.threads[t]) && !Stale(s.threads[t]);
    }
  }

  lemma RaiseFlagInv(c: Config, s: State)
    requires Inv(c, s) && s.col == CountUp
    ensures Inv(c, Apply(c, s, RaiseFlag))
  {
    hide ThreadOk, Acknowledged;
    var s' := Apply(c, s, RaiseFlag);
    assert Posted(s', false) == {};
    assert c.ids - c.ids == {};
  }

  lemma BeginStartInv(c: Config, s: State)
    requires Inv(c, s) && s.col == Stopped
    ensures Inv(c, Apply(c, s, BeginStart))
  {
    hide ThreadOk, Acknowledged;
    var s' := Apply(c, s, BeginStart);
    assert Posted(s', true) == {};
    assert c.ids - c.ids == {};
  }

  /** A signal changes no promise of the phase, so long as a stop that does not resend signals only
      untouched threads. */
  lemma SignalPhase(c: Config, col: Collector, k: nat, m: Thread, lost: bool)
    requires PhaseOk(c, col, k, m) && (Starting(col) || (Stopping(col) && (c.retry || Untouched(c, k, m))))
    ensures PhaseOk(c, col, k, Signalled(m, Starting(col), lost))
  {
  }

  /** Signalling a thread changes nothing about who has posted. */
  lemma SignalPosted(s: State, t: nat, starting: bool, signal: bool, lost: bool, s': State)
    requires t in s.threads && s'.threads == s.threads[t := Signalled(s.threads[t], signal, lost)]
    requires s'.stopCount == s.stopCount
    ensures Posted(s', starting) == Posted(s, starting)
  {
    forall u | u in s.threads
      ensures Acknowledged(s.stopCount, s'.threads[u]) == Acknowledged(s.stopCount, s.threads[u])
      ensures Restarted(s.stopCount, s'.threads[u]) == Restarted(s.stopCount, s.threads[u])
    {
    }
    hide Acknowledged, Restarted;
  }

  /** Moving on within a phase promises the threads nothing new. */
  lemma PhaseGoesOn(c: Config, s: State, s': State)
    requires ThreadsOk(c, s) && s'.threads == s.threads && s'.stopCount == s.stopCount
    requires (Stopping(s.col) && Stopping(s'.col)) || (Starting(s.col) && Starting(s'.col))
    ensures ThreadsOk(c, s') && Posted(s', true) == Posted(s, true) && Posted(s', false) == Posted(s, false)
    ensures Posted(s, true) <= c.ids && Posted(s, false) <= c.ids
  {
    hide ThreadOk, Restarted, Acknowledged, NotYet, Held;
  }

  lemma UntouchedUnsettled(c: Config, col: Collector, k: nat, m: Thread)
    requires Untouched(c, k, m) && PhaseOk(c, col, k, m)
    ensures m.last != k
  {
  }

  /** A signal sent within a phase. */
  lemma SignalThreads(c: Config, s: State, t: nat, lost: bool, s': State)
    requires ThreadsOk(c, s) && t in s.threads && s'.stopCount == s.stopCount
    requires (Stopping(s.col) && Stopping(s'.col)) || (Starting(s.col) && Starting(s'.col))
    requires Stopping(s.col) ==> c.retry || Untouched(c, s.stopCount, s.threads[t])
    requires s'.threads == s.threads[t := Signalled(s.threads[t], Starting(s.col), lost)]
    ensures ThreadsOk(c, s') && Posted(s', true) == Posted(s, true) && Posted(s', false) == Posted(s, false)
  {
    hide PhaseOk, Posted, Untouched;
    SignalPhase(c, s.col, s.stopCount, s.threads[t], lost);
    SignalPosted(s, t, true, Starting(s.col), lost, s');
    SignalPosted(s, t, false, Starting(s.col), lost, s');
    var s1 := s'.(col := s.col);
    assert ThreadsOk(c, s1);
    PhaseGoesOn(c, s1, s');
  }

  /** Looking at one thread in the first pass: while stopping it is untouched, and so it is signalled. */
  lemma ScanOneSteps(c: Config, s: State, a: Action)
    requires Inv(c, s) && a.ScanOne? && Enabled(c, s, a)
    ensures s.col.Scan? && a.t in s.col.todo && a.t in s.threads
    ensures !s.col.starting ==> Untouched(c, s.stopCount, s.threads[a.t])
    ensures Apply(c, s, a) == s.(col := Scan(s.col.starting, s.col.todo - {a.t}, s.col.n + 1),
                                 threads := s.threads[a.t := Signalled(s.threads[a.t], s.col.starting, a.lost)])
  {
    hide PhaseOk, Posted, Untouched, Signalled;
    if !s.col.starting {
      UntouchedUnsettled(c, s.col, s.stopCount, s.threads[a.t]);
    }
  }

  lemma ScanOneInv(c: Config, s: State, a: Action)
    requires Inv(c, s) && a.ScanOne? && Enabled(c, s, a)
    ensures Inv(c, Apply(c, s, a))
  {
    hide ThreadsOk, Posted, Untouched, Signalled, Enabled, Apply;
    ScanOneSteps(c, s, a);
    var s', t, todo := Apply(c, s, a), a.t, s.col.todo;
    SignalThreads(c, s, t, a.lost, s');
    OtherUntouched(c, s, t, s');
    assert c.ids - (todo - {t}) == (c.ids - todo) + {t};
  }

  lemma OtherUntouched(c: Config, s: State, t: nat, s': State)
    requires ThreadsOk(c, s) && t in s.threads && s'.threads.Keys == s.threads.Keys
    requires forall u :: u in s.threads && u != t ==> s'.threads[u] == s.threads[u]
    ensures forall u :: u != t && u in s.threads && Untouched(c, s.stopCount, s.threads[u])
                        ==> Untouched(c, s.stopCount, s'.threads[u])
  {
    hide PhaseOk, Untouched;
  }

  /** A thread whose last stop count settles it has posted. */
  lemma SettledPosted(c: Config, s: State, t: nat)
    requires ThreadsOk(c, s) && c.retry && t in s.threads && (Starting(s.col) || Stopping(s.col))
    requires Settled(s, s.threads[t], Starting(s.col))
    ensures t in Posted(s, Starting(s.col))
  {
    assert PhaseOk(c, s.col, s.stopCount, s.threads[t]);
  }

  /** Looking at one thread in a resending pass. */
  lemma RescanOneSteps(c: Config, s: State, a: Action)
    requires a.RescanOne? && Enabled(c, s, a)
    ensures s.col.Rescan? && a.t in s.col.todo && a.t in s.threads
    ensures var settled := Settled(s, s.threads[a.t], s.col.starting);
            Apply(c, s, a) ==
              if settled then s.(col := Rescan(s.col.starting, s.col.todo - {a.t}, s.col.sent, s.col.n))
              else s.(col := Rescan(s.col.starting, s.col.todo - {a.t}, s.col.sent + 1, s.col.n),
                      threads := s.threads[a.t := Signalled(s.threads[a.t], s.col.starting, a.lost)])
  {
    hide Settled, Signalled;
  }

  lemma RescanCounts(c: Config, col: Collector, flag: bool, sem: nat, posted: set<nat>, t: nat, sent: nat)
    requires col.Rescan? && Counts(c, col, flag, sem, posted) && t in col.todo
    requires sent == if t in posted then col.sent else col.sent + 1
    ensures Counts(c, Rescan(col.starting, col.todo - {t}, sent, col.n), flag, sem, posted)
    ensures Counts(c, Rescan(col.starting, col.todo - {t}, col.sent + 1, col.n), flag, sem, posted)
  {
    var rest := (c.ids - col.todo) - posted;
    var more := (c.ids - (col.todo - {t})) - posted;
    if t in posted {
      assert more == rest;
    } else {
      SubsetSize(more, rest + {t});
    }
  }

  lemma RescanOneInv(c: Config, s: State, a: Action)
    requires Inv(c, s) && a.RescanOne? && Enabled(c, s, a)
    ensures Inv(c, Apply(c, s, a))
  {
    hide ThreadsOk, Posted, Settled, Signalled, Enabled, Apply;
    RescanOneSteps(c, s, a);
    var s', t, p := Apply(c, s, a), a.t, Posted(s, s.col.starting);
    RescanCounts(c, s.col, s.flag, s.sem, p, t, if t in p then s.col.sent else s.col.sent + 1);
    hide Counts;
    if Settled(s, s.threads[t], s.col.starting) {
      SettledPosted(c, s, t);
      PhaseGoesOn(c, s, s');
    } else {
      SignalThreads(c, s, t, a.lost, s');
    }
  }

  /** Passing on within a phase with counters that are right. */
  lemma GoesOn(c: Config, s: State, s': State)
    requires Inv(c, s) && s'.threads == s.threads && s'.stopCount == s.stopCount && !s'.corrected && !s'.col.Scan?
    requires (Stopping(s.col) && Stopping(s'.col)) || (Starting(s.col) && Starting(s'.col))
    requires Counts(c, s'.col, s'.flag, s'.sem, Posted(s, Starting(s.col)))
    ensures Inv(c, s')
  {
    hide ThreadsOk, Posted, Counts;
    PhaseGoesOn(c, s, s');
  }

  predicate Counting(a: Action) {
    a.TakeTimed? || a.TimedDone? || a.LookDone? || a.Take? || a.Resend? || a.RescanDone? || a.Decide?
  }

  /** The collector's steps that only count keep the count right. */
  lemma CountingCounts(c: Config, s: State, a: Action, posted: set<nat>)
    requires Counts(c, s.col, s.flag, s.sem, posted) && posted <= c.ids && Enabled(c, s, a) && Counting(a)
    requires !s.corrected
    ensures var s' := Apply(c, s, a); Counts(c, s'.col, s'.flag, s'.sem, posted) && !s'.corrected
  {
    if a.Resend? {
      assert (c.ids - c.ids) - posted == {};
    } else if a.RescanDone? {
      assert c.ids - s.col.todo == c.ids;
    } else if a.Decide? {
      SubsetSize(posted, c.ids);
    }
  }

  lemma CountingGoesOn(c: Config, s: State, a: Action)
    requires Enabled(c, s, a) && Counting(a)
    ensures var s' := Apply(c, s, a);
            && s'.threads == s.threads && s'.stopCount == s.stopCount && !s'.col.Scan?
            && ((Stopping(s.col) && Stopping(s'.col)) || (Starting(s.col) && Starting(s'.col)))
  {
  }

  lemma CountingInv(c: Config, s: State, a: Action)
    requires Inv(c, s) && Enabled(c, s, a) && Counting(a)
    ensures Inv(c, Apply(c, s, a))
  {
    hide ThreadsOk, Posted, Counts, Apply, Enabled;
    PostedOurs(c, s, Starting(s.col));
    CountingCounts(c, s, a, Posted(s, Starting(s.col)));
    CountingGoesOn(c, s, a);
    GoesOn(c, s, Apply(c, s, a));
  }

  lemma PostedOurs(c: Config, s: State, starting: bool)
    requires ThreadsOk(c, s)
    ensures Posted(s, starting) <= c.ids
  {
    hide PhaseOk, Restarted, Acknowledged;
  }

  /** Each thread that has not posted was signalled again, so the correction for lost threads does
      not fire. */
  lemma NoneLost(c: Config, s: State)
    requires Inv(c, s) && s.col.Recheck?
    ensures s.col.sent >= s.col.n - s.sem && !Apply(c, s, Decide).corrected
  {
    hide ThreadsOk, Posted;
    PostedOurs(c, s, s.col.starting);
    SubsetSize(Posted(s, s.col.starting), c.ids);
  }

  lemma ScanDoneInv(c: Config, s: State)
    requires Inv(c, s) && Enabled(c, s, ScanDone)
    ensures Inv(c, Apply(c, s, ScanDone))
  {
    hide ThreadsOk, Posted;
    var s' := Apply(c, s, ScanDone);
    assert c.ids - {} == c.ids;
    if s'.col == Idle {
      SameThreads(c, s, s');
    } else {
      GoesOn(c, s, s');
    }
  }

  /** Without resending, the restart is not waited for. */
  lemma SameThreads(c: Config, s: State, s': State)
    requires ThreadsOk(c, s) && Starting(s.col) && !c.retry && s' == s.(col := Idle)
    ensures ThreadsOk(c, s')
  {
    hide ThreadOk, Restarted, Acknowledged, NotYet, Held;
  }

  /** When the barrier is passed every thread has posted and the semaphore is back at zero. */
  lemma AllPosted(c: Config, s: State)
    requires Inv(c, s) && Enabled(c, s, BarrierDone)
    ensures s.sem == 0 && c.ids == Posted(s, s.col.starting) && s.flag == !s.col.starting
  {
    hide ThreadsOk, Posted;
    PostedOurs(c, s, s.col.starting);
    SubsetSize(Posted(s, s.col.starting), c.ids);
  }

  lemma BarrierThreads(c: Config, s: State)
    requires ThreadsOk(c, s) && Enabled(c, s, BarrierDone) && c.ids == Posted(s, s.col.starting)
    ensures ThreadsOk(c, Apply(c, s, BarrierDone))
  {
    hide ThreadOk, Restarted, Acknowledged, NotYet, Held;
    assert forall t :: t in s.threads ==> t in Posted(s, s.col.starting);
  }

  lemma BarrierDoneInv(c: Config, s: State)
    requires Inv(c, s) && Enabled(c, s, BarrierDone)
    ensures Inv(c, Apply(c, s, BarrierDone))
  {
    hide ThreadsOk, Posted, Accounted;
    AllPosted(c, s);
    BarrierThreads(c, s);
  }

  /** Without resending, no suspend signal outlives its stop. */
  lemma QuietUnlessRetrying(c: Config, s: State)
    requires Inv(c, s) && s.col == Idle && !c.retry
    ensures Quiet(s)
  {
    forall t | t in s.threads ensures !Stale(s.threads[t]) {
      assert PhaseOk(c, s.col, s.stopCount, s.threads[t]);
    }
  }

  lemma StepInv(c: Config, s: State, a: Action)
    requires Inv(c, s) && Enabled(c, s, a) && (a.BeginStop? && c.retry ==> Quiet(s))
    ensures Inv(c, Apply(c, s, a))
  {
    hide Inv, Apply, Quiet;
    if OfThread(a) {
      ThreadStepInv(c, s, a);
    } else {
      match a
      case BeginStop => if !c.retry { QuietUnlessRetrying(c, s); } BeginStopInv(c, s);
      case RaiseFlag => RaiseFlagInv(c, s);
      case BeginStart => BeginStartInv(c, s);
      case ScanOne(_, _) => ScanOneInv(c, s, a);
      case RescanOne(_, _) => RescanOneInv(c, s, a);
      case BarrierDone => BarrierDoneInv(c, s);
      case ScanDone => ScanDoneInv(c, s);
      case _ => CountingInv(c, s, a);
    }
  }

  // ---------- whole runs

  ghost predicate Enables(c: Config, s: State, acts: seq<Action>)
    decreases |acts|
  {
    acts == [] || (Enabled(c, s, acts[0]) && Enables(c, Apply(c, s, acts[0]), acts[1..]))
  }

  ghost function After(c: Config, s: State, acts: seq<Action>): State
    requires Enables(c, s, acts)
    decreases |acts|
  {
    if acts == [] then s else After(c, Apply(c, s, acts[0]), acts[1..])
  }

  /** The run publishes a new stop count only when no earlier suspend signal is unanswered, which
      matters only if signals are resent. */
  ghost predicate Careful(c: Config, s: State, acts: seq<Action>)
    decreases |acts|
  {
    acts == []
    || (&& Enabled(c, s, acts[0]) && (acts[0].BeginStop? && c.retry ==> Quiet(s))
        && Careful(c, Apply(c, s, acts[0]), acts[1..]))
  }

  lemma {:induction false} CarefulInv(c: Config, s: State, acts: seq<Action>)
    requires Inv(c, s) && Careful(c, s, acts)
    ensures Enables(c, s, acts) && Inv(c, After(c, s, acts))
    decreases |acts|
  {
    hide Inv, Apply, Enabled, Quiet;
    if acts != [] {
      StepInv(c, s, acts[0]);
      CarefulInv(c, Apply(c, s, acts[0]), acts[1..]);
    }
  }

  /** What GC_stop_world promises when it returns: every thread has saved its stack pointer for this
      stop and sits in its handler, and the acknowledgements are used up. */
  ghost predicate StopExact(s: State) {
    s.col == Stopped ==>
      s.sem == 0 && forall t :: t in s.threads ==> Held(s.stopCount, s.threads[t]) && s.threads[t].saved == s.stopCount
  }

  lemma InvExact(c: Config, s: State)
    requires Inv(c, s)
    ensures StopExact(s)
  {
    if s.col == Stopped {
      forall t | t in s.threads ensures Held(s.stopCount, s.threads[t]) && s.threads[t].saved == s.stopCount {
        assert PhaseOk(c, s.col, s.stopCount, s.threads[t]);
      }
    }
  }

  /** Over every run that is careful, GC_stop_world keeps its promise from its return until
      GC_start_world is called, and the correction for lost threads never fires. */
  lemma StopWorldExact(c: Config, acts: seq<Action>)
    requires Careful(c, Init(c), acts)
    ensures Enables(c, Init(c), acts)
    ensures StopExact(After(c, Init(c), acts)) && !After(c, Init(c), acts).corrected
  {
    hide StopExact, Init, Careful, Enables, After;
    InitInv(c);
    CarefulInv(c, Init(c), acts);
    InvExact(c, After(c, Init(c), acts));
  }

  /** Without resending no suspend signal is unanswered when a run is between stops. */
  lemma QuietBetweenStops(c: Config, acts: seq<Action>)
    requires !c.retry && Enables(c, Init(c), acts) && After(c, Init(c), acts).col == Idle
    ensures Quiet(After(c, Init(c), acts))
  {
    hide Inv, Quiet, Init, Enables, After;
    InitInv(c);
    NoRetryCareful(c, Init(c), acts);
    CarefulInv(c, Init(c), acts);
    QuietUnlessRetrying(c, After(c, Init(c), acts));
  }

  /** Without resending every run is careful. */
  lemma {:induction false} NoRetryCareful(c: Config, s: State, acts: seq<Action>)
    requires !c.retry && Enables(c, s, acts)
    ensures Careful(c, s, acts)
    decreases |acts|
  {
    hide Apply, Enabled, Quiet;
    if acts != [] { NoRetryCareful(c, Apply(c, s, acts[0]), acts[1..]); }
  }
}
