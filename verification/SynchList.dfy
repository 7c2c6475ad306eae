/** SynchList: a list used under a lock, with consumers waiting on a condition.

    Any number of threads call Append and RemoveFront.  Each step of either method is
    one monitor step, so every run of the list is a run of the monitor and the kernel. */
module SynchList {
  import opened Options
  import opened Kernel
  import opened M = Monitor

  type Item = nat     // a pointer put on the list

  /** What a thread inside a SynchList method has done so far. */
  datatype Job =
    | Put(item: Item)     // Append: acquiring the lock
    | Appended            // Append: item on the list, nobody signalled yet
    | Signalled           // Append: signal sent
    | Get(waited: bool)   // RemoveFront: `waited` once it has found the list empty

  datatype Data = Data(
    list: seq<Item>,
    jobs: map<Tid, Job>,
    appended: seq<Item>,  // history: everything appended, in order
    removed: seq<Item>)   // history: everything removed, in order

  datatype List = List(st: M.State, d: Data)

  datatype Event =
    | StartAppend(item: Item)    // lock->Acquire()
    | EnterAppend                // the lock is ours; list->Append(item)
    | SignalAppend               // listEmpty->Signal(lock)
    | FinishAppend               // lock->Release()
    | StartRemove                // lock->Acquire()
    | EnterRemove                // the lock is ours
    | WaitRemove(w: Sid)         // the list is empty: listEmpty->Wait(lock)
    | SleepRemove                // inside Wait: waiter->P()
    | ReacquireRemove            // inside Wait: back from P, Acquire again
    | FinishRemove               // list->RemoveFront(), lock->Release()
    | Background(e: Kernel.Event)

  function MonitorEvent(e: Event): M.Event {
    match e
    case StartAppend(_) => Acquire
    case EnterAppend => Enter
    case SignalAppend => Signal
    case FinishAppend => Release
    case StartRemove => Acquire
    case EnterRemove => Enter
    case WaitRemove(w) => Wait(w)
    case SleepRemove => M.Event.Sleep
    case ReacquireRemove => Reacquire
    case FinishRemove => Release
    case Background(e) => Other(e)
  }

  predicate Doing(d: Data, t: Tid, job: Job) {
    t in d.jobs && d.jobs[t] == job
  }

  predicate Getting(d: Data, t: Tid) {
    t in d.jobs && d.jobs[t].Get?
  }

  predicate Enabled(l: List, e: Event) {
    var t := l.st.k.cpu.t;
    && M.Enabled(l.st, MonitorEvent(e))
    && match e
       case StartAppend(_) => true
       case EnterAppend => t in l.d.jobs && l.d.jobs[t].Put? && l.d.jobs[t].item !in l.d.list
       case SignalAppend => Doing(l.d, t, Appended)
       case FinishAppend => Doing(l.d, t, Signalled)
       case StartRemove => true
       case EnterRemove => Getting(l.d, t)
       case WaitRemove(_) => Getting(l.d, t) && l.d.list == []
       case SleepRemove => Getting(l.d, t)
       case ReacquireRemove => Getting(l.d, t)
       case FinishRemove => Getting(l.d, t) && l.d.list != []
       case Background(_) => true
  }

  function DataStep(d: Data, t: Tid, e: Event): Data
    requires e.EnterAppend? ==> t in d.jobs && d.jobs[t].Put?
    requires e.FinishRemove? ==> d.list != []
  {
    match e
    case StartAppend(item) => d.(jobs := d.jobs[t := Put(item)])
    case EnterAppend =>
      var item := d.jobs[t].item;
      d.(jobs := d.jobs[t := Appended], list := d.list + [item], appended := d.appended + [item])
    case SignalAppend => d.(jobs := d.jobs[t := Signalled])
    case FinishAppend => d.(jobs := d.jobs - {t})
    case StartRemove => d.(jobs := d.jobs[t := Get(false)])
    case WaitRemove(_) => d.(jobs := d.jobs[t := Get(true)])
    case FinishRemove => d.(jobs := d.jobs - {t}, list := d.list[1..], removed := d.removed + [d.list[0]])
    case _ => d
  }

  ghost function Step(l: List, e: Event): List
    requires Kernel.Inv(l.st.k) && Enabled(l, e)
  {
    List(M.Step(l.st, MonitorEvent(e)), DataStep(l.d, l.st.k.cpu.t, e))
  }

  // ------------------------------------------------------------ the invariant

  /** Consumers that have waited, are off the condition's queue, and have not yet
      looked at the list again. */
  ghost function Rechecking(m: Mon, d: Data): set<Tid> {
    set t | t in d.jobs && d.jobs[t] == Get(true) && t in m.pc && !(m.pc[t].Sleeping? && m.pc[t].w in m.waitQueue)
  }

  /** Producers that have added an item but not signalled yet. */
  ghost function Unsignalled(d: Data): set<Tid> {
    set t | t in d.jobs && d.jobs[t] == Appended
  }

  ghost predicate JobInv(m: Mon, d: Data, t: Tid) {
    && (t in m.pc <==> t in d.jobs)
    && (t in m.pc ==>
          match d.jobs[t]
          case Put(_) => m.pc[t].Acquiring?
          case Appended => m.pc[t].Inside?
          case Signalled => m.pc[t].Inside?
          case Get(waited) => m.pc[t].Sleeping? ==> waited)
  }

  ghost predicate WakeInv(m: Mon, d: Data) {
    m.waitQueue != [] ==> |d.list| <= |Rechecking(m, d)| + |Unsignalled(d)|
  }

  ghost predicate Inv(l: List) {
    && M.Inv(l.st)
    && (forall t :: JobInv(l.st.m, l.d, t))
    && WakeInv(l.st.m, l.d)
    && l.d.removed + l.d.list == l.d.appended
  }

  // ------------------------------------------------- every event preserves it

  /** The monitor facts the list relies on: a queued private semaphore belongs to a
      thread still asleep on it. */
  ghost predicate QueueOwned(m: Mon) {
    && NoDup(m.waitQueue)
    && (forall w | w in m.waitQueue :: w in m.waiters && At(m, m.waiters[w], Sleeping(w)))
  }

  lemma MonitorFacts(st: M.State)
    requires M.Inv(st)
    ensures QueueOwned(st.m)
    ensures forall t: Tid | t in st.k.threads && t in st.m.pc && st.m.pc[t].Sleeping? && st.k.threads[t].mode == Passed(st.m.pc[t].w) ::
              st.m.pc[t].w !in st.m.waitQueue
    ensures forall t: Tid | At(st.m, t, Inside) :: st.m.holder == Some(t)
    ensures st.m.holder.Some? ==> At(st.m, st.m.holder.value, Inside)
  {
    hide Kernel.Inv;
    var ps, vs, m := Phases(st.k), Values(st.k), st.m;
    forall w | w in m.waitQueue ensures w in m.waiters && At(m, m.waiters[w], Sleeping(w)) {
      assert WaiterInv(ps, vs, m, w);
    }
    forall t: Tid | t in st.k.threads && t in m.pc && m.pc[t].Sleeping? && st.k.threads[t].mode == Passed(m.pc[t].w)
      ensures m.pc[t].w !in m.waitQueue {
      assert PcInv(ps, m, t);
      assert WaiterInv(ps, vs, m, m.pc[t].w);
    }
    HolderFacts(st);
  }

  /** What an enabled event says about the monitor record alone. */
  ghost predicate Allowed(m: Mon, d: Data, t: Tid, e: Event) {
    match e
    case StartAppend(_) => t !in m.pc
    case EnterAppend => At(m, t, Acquiring) && t in d.jobs && d.jobs[t].Put?
    case SignalAppend => At(m, t, Inside) && Doing(d, t, Appended)
    case FinishAppend => At(m, t, Inside) && Doing(d, t, Signalled)
    case StartRemove => t !in m.pc
    case EnterRemove => At(m, t, Acquiring) && Getting(d, t)
    case WaitRemove(w) => At(m, t, Inside) && Getting(d, t) && d.list == []
    case SleepRemove => Getting(d, t)
    case ReacquireRemove => Getting(d, t) && t in m.pc && m.pc[t].Sleeping? && m.pc[t].w !in m.waitQueue
    case FinishRemove => At(m, t, Inside) && Getting(d, t) && d.list != []
    case Background(_) => true
  }

  lemma EnabledIsAllowed(l: List, e: Event)
    requires M.Inv(l.st) && Enabled(l, e)
    ensures Allowed(l.st.m, l.d, l.st.k.cpu.t, e)
  {
    hide M.Inv, Kernel.Inv;
    MonitorFacts(l.st);
  }

  lemma JobsKept(m: Mon, d: Data, t: Tid, e: Event)
    requires Allowed(m, d, t, e) && forall u :: JobInv(m, d, u)
    ensures var m', d' := MonStep(m, t, MonitorEvent(e)), DataStep(d, t, e); forall u :: JobInv(m', d', u)
  {
    var m', d' := MonStep(m, t, MonitorEvent(e)), DataStep(d, t, e);
    forall u ensures JobInv(m', d', u) { assert JobInv(m, d, u) && JobInv(m, d, t); }
  }

  lemma SignalWakes(m: Mon, d: Data, t: Tid)
    requires Allowed(m, d, t, SignalAppend) && QueueOwned(m) && (forall u :: JobInv(m, d, u)) && WakeInv(m, d)
    ensures WakeInv(MonStep(m, t, Signal), DataStep(d, t, SignalAppend))
  {
    var m', d' := MonStep(m, t, Signal), DataStep(d, t, SignalAppend);
    if m.waitQueue != [] {
      var w := m.waitQueue[0];
      assert w in m.waitQueue;
      var u := m.waiters[w];
      assert JobInv(m, d, u);
      PopElems(m.waitQueue);
      assert w !in m'.waitQueue by { assert w !in Elems(m'.waitQueue); }
      assert forall x :: x in m'.waitQueue ==> x in m.waitQueue;
      assert Rechecking(m, d) + {u} <= Rechecking(m', d');
      SubsetSize(Rechecking(m, d) + {u}, Rechecking(m', d'));
      assert Unsignalled(d') == Unsignalled(d) - {t};
    }
  }

  lemma {:induction false} SubsetSize(a: set<Tid>, b: set<Tid>)
    requires a <= b
    ensures |a| <= |b|
  {
    assert b == a + (b - a);
  }

  lemma AppendKeepsWake(m: Mon, d: Data, t: Tid)
    requires Allowed(m, d, t, EnterAppend) && WakeInv(m, d)
    ensures WakeInv(MonStep(m, t, Enter), DataStep(d, t, EnterAppend))
  {
    var m', d' := MonStep(m, t, Enter), DataStep(d, t, EnterAppend);
    assert Rechecking(m', d') == Rechecking(m, d);
    assert Unsignalled(d') == Unsignalled(d) + {t};
  }

  lemma RemoveKeepsWake(m: Mon, d: Data, t: Tid)
    requires Allowed(m, d, t, FinishRemove) && WakeInv(m, d)
    ensures WakeInv(MonStep(m, t, Release), DataStep(d, t, FinishRemove))
  {
    var m', d' := MonStep(m, t, Release), DataStep(d, t, FinishRemove);
    RemoveRechecks(m, d, t);
    assert |d'.list| == |d.list| - 1 && m'.waitQueue == m.waitQueue;
    hide Rechecking, Unsignalled, MonStep, DataStep;
    LessOne(Rechecking(m, d), t);
  }

  lemma RemoveRechecks(m: Mon, d: Data, t: Tid)
    requires Allowed(m, d, t, FinishRemove)
    ensures var m', d' := MonStep(m, t, Release), DataStep(d, t, FinishRemove);
            Rechecking(m', d') == Rechecking(m, d) - {t} && Unsignalled(d') == Unsignalled(d)
  {
  }

  lemma LessOne(a: set<Tid>, t: Tid)
    ensures |a - {t}| >= |a| - 1
  {
    if t in a {
      assert a == (a - {t}) + {t};
    } else {
      assert a - {t} == a;
    }
  }

  /** The other events: the waiters still queued can count on as many rechecks. */
  lemma OthersKeepWake(m: Mon, d: Data, t: Tid, e: Event)
    requires Allowed(m, d, t, e) && JobInv(m, d, t) && WakeInv(m, d)
    requires !e.SignalAppend? && !e.WaitRemove? && !e.EnterAppend? && !e.FinishRemove?
    ensures WakeInv(MonStep(m, t, MonitorEvent(e)), DataStep(d, t, e))
  {
    var m', d' := MonStep(m, t, MonitorEvent(e)), DataStep(d, t, e);
    assert Unsignalled(d') == Unsignalled(d);
    assert Rechecking(m', d') == Rechecking(m, d);
  }

  lemma WakeKept(m: Mon, d: Data, t: Tid, e: Event)
    requires Allowed(m, d, t, e) && QueueOwned(m) && (forall u :: JobInv(m, d, u)) && WakeInv(m, d)
    ensures WakeInv(MonStep(m, t, MonitorEvent(e)), DataStep(d, t, e))
  {
    match e
    case EnterAppend => AppendKeepsWake(m, d, t);
    case FinishRemove => RemoveKeepsWake(m, d, t);
    case SignalAppend => SignalWakes(m, d, t);
    case WaitRemove(_) =>
    case _ => assert JobInv(m, d, t); OthersKeepWake(m, d, t, e);
  }

  lemma FifoKept(d: Data, t: Tid, e: Event)
    requires DataStep.requires(d, t, e) && d.removed + d.list == d.appended
    ensures var d' := DataStep(d, t, e); d'.removed + d'.list == d'.appended
  {
    match e
    case EnterAppend => assert d.removed + (d.list + [d.jobs[t].item]) == (d.removed + d.list) + [d.jobs[t].item];
    case FinishRemove => assert d.list == [d.list[0]] + d.list[1..];
    case _ =>
  }

  /** Every event of any thread preserves the list's invariant. */
  lemma StepKeepsInv(l: List, e: Event)
    requires Inv(l) && Enabled(l, e)
    ensures Inv(Step(l, e))
  {
    hide Shape, Kernel.Inv, M.KernelStep, M.Enabled, WakeInv, JobInv, MonStep, DataStep;
    var m, d, t := l.st.m, l.d, l.st.k.cpu.t;
    M.StepKeepsInv(l.st, MonitorEvent(e));
    MonitorFacts(l.st);
    EnabledIsAllowed(l, e);
    JobsKept(m, d, t, e);
    WakeKept(m, d, t, e);
    FifoKept(d, t, e);
  }

  // --------------------------------------------------------------- whole runs

  ghost predicate Initial(l: List) {
    M.Initial(l.st) && l.d == Data([], map[], [], [])
  }

  ghost predicate ValidRun(l: List, es: seq<Event>)
    requires Inv(l)
    decreases |es|
  {
    es == [] || (Enabled(l, es[0]) && (StepKeepsInv(l, es[0]); ValidRun(Step(l, es[0]), es[1..])))
  }

  ghost function Exec(l: List, es: seq<Event>): List
    requires Inv(l) && ValidRun(l, es)
    decreases |es|
  {
    if es == [] then l else StepKeepsInv(l, es[0]); Exec(Step(l, es[0]), es[1..])
  }

  ghost predicate Reachable(l: List) {
    exists l0, es | Initial(l0) && Inv(l0) && ValidRun(l0, es) :: Exec(l0, es) == l
  }

  lemma InitialInv(l: List)
    requires Initial(l)
    ensures Inv(l)
  {
    M.InitialInv(l.st);
  }

  lemma {:induction false} ExecKeepsInv(l: List, es: seq<Event>)
    requires Inv(l) && ValidRun(l, es)
    ensures Inv(Exec(l, es))
    decreases |es|
  {
    hide Shape, Kernel.Inv, Step, Enabled;
    if es != [] {
      StepKeepsInv(l, es[0]);
      ExecKeepsInv(Step(l, es[0]), es[1..]);
    }
  }

  lemma ReachableInv(l: List)
    requires Reachable(l)
    ensures Inv(l)
  {
    var l0, es :| Initial(l0) && Inv(l0) && ValidRun(l0, es) && Exec(l0, es) == l;
    ExecKeepsInv(l0, es);
  }

  /** The list is a first-in first-out channel on every interleaving: what has been
      removed, followed by what is on the list, is what was appended, in order. */
  lemma FifoChannel(l: List)
    requires Reachable(l)
    ensures l.d.removed + l.d.list == l.d.appended
    ensures l.d.removed <= l.d.appended
  {
    ReachableInv(l);
  }

  lemma UnsignalledInside(l: List)
    requires Inv(l)
    ensures Unsignalled(l.d) <= Insiders(Phases(l.st.k), l.st.m)
  {
    hide Kernel.Inv;
    var ps, m := Phases(l.st.k), l.st.m;
    forall t | t in Unsignalled(l.d) ensures t in Insiders(ps, m) {
      assert JobInv(m, l.d, t);
      assert PcInv(ps, m, t);
    }
  }

  /** No wake-up is lost: whenever the lock is free and a consumer is still on the
      condition's queue, the list is no longer than the number of signalled consumers
      that have yet to look at it; so if it is not empty, one of them is on its way. */
  lemma NoConsumerForgotten(l: List)
    requires Reachable(l) && l.st.m.waitQueue != []
    requires l.st.m.lock in l.st.k.sems && l.st.k.sems[l.st.m.lock].value == 1
    ensures |l.d.list| <= |Rechecking(l.st.m, l.d)|
    ensures l.d.list != [] ==> exists t :: t in Rechecking(l.st.m, l.d)
  {
    hide Reachable, Kernel.Inv, JobInv;
    ReachableInv(l);
    var ps, m := Phases(l.st.k), l.st.m;
    UnsignalledInside(l);
    assert |Insiders(ps, m)| == 0;
    assert Unsignalled(l.d) == {};
    if l.d.list != [] {
      assert |Rechecking(m, l.d)| > 0;
      var t :| t in Rechecking(m, l.d);
    }
  }

  // ------------------------------------------------------------------ progress

  /** In every reachable state a thread that has the CPU in Append or RemoveFront can take the
      next step: in Append the item goes on the list, unless it is there already, then the signal
      is sent and the lock released; in RemoveFront it takes the first item if there is one, and
      otherwise waits. */
  lemma CanGoOn(l: List)
    requires Reachable(l) && RunningFree(l.st.k)
    ensures var t, d, m := l.st.k.cpu.t, l.d, l.st.m;
            && (t !in d.jobs ==> Enabled(l, StartRemove) && forall item: Item :: Enabled(l, StartAppend(item)))
            && (t in d.jobs ==>
                  && t in m.pc
                  && match d.jobs[t]
                     case Put(_) => false
                     case Appended => Enabled(l, SignalAppend)
                     case Signalled => Enabled(l, FinishAppend)
                     case Get(_) =>
                       if m.pc[t].Sleeping? then Enabled(l, SleepRemove)
                       else if d.list != [] then Enabled(l, FinishRemove)
                       else forall w: Sid | w !in l.st.k.sems :: Enabled(l, WaitRemove(w)))
  {
    hide Reachable, M.Inv, M.Enabled, WakeInv, RunningFree;
    ReachableInv(l);
    assert JobInv(l.st.m, l.d, l.st.k.cpu.t);
    FreeSteps(l.st);
  }

  /** The same for a thread that has just got the lock, or is back from its private semaphore. */
  lemma CanGoOnFromP(l: List)
    requires Reachable(l) && l.st.k.cpu.Running? && !RunningFree(l.st.k)
    ensures var t, d, m := l.st.k.cpu.t, l.d, l.st.m;
            t in d.jobs ==>
              && t in m.pc
              && (m.pc[t].Acquiring? ==>
                    if d.jobs[t].Put? then d.jobs[t].item in d.list || Enabled(l, EnterAppend) else Enabled(l, EnterRemove))
              && (m.pc[t].Sleeping? ==> Enabled(l, ReacquireRemove))
  {
    hide Reachable, M.Inv, M.Enabled, WakeInv, RunningFree;
    ReachableInv(l);
    assert JobInv(l.st.m, l.d, l.st.k.cpu.t);
    PassedSteps(l.st);
  }
}
