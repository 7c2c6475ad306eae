/** Threads, the scheduler and semaphores as one transition system.

    Nachos simulates a uniprocessor: a thread loses the CPU only where simulated
    time advances, so every stretch of code that runs with interrupts off is one
    atomic step here.  An event is such a stretch; a run is a list of events, and
    any event that is enabled may come next. */
module Kernel {
  import opened Options

  type Tid = nat
  type Sid = nat

  /** Where a thread stands with respect to Semaphore::P and Thread::Finish. */
  datatype Mode =
    | Free                // outside P
    | Waiting(sem: Sid)   // appended to the semaphore's queue
    | Woken(sem: Sid)     // removed from the queue by V; has not rechecked the value
    | Passed(sem: Sid)    // P has decremented the value; its caller has not moved on
    | Finishing           // has called Finish

  datatype Status = RUNNING | READY | BLOCKED

  datatype Thread = Thread(mode: Mode, status: Status)

  datatype Semaphore = Semaphore(value: int, queue: seq<Tid>)

  /** `Resuming(t)`: SWITCH has just returned in t, interrupts are still off.
      `Idle(t)`: t is in the loop of Thread::Sleep that waits for an interrupt. */
  datatype Cpu = Running(t: Tid) | Resuming(t: Tid) | Idle(t: Tid)

  datatype State = State(
    threads: map<Tid, Thread>,
    sems: map<Sid, Semaphore>,
    ready: seq<Tid>,
    cpu: Cpu,
    toBeDestroyed: Option<Tid>,
    destroyed: seq<Tid>)      // history: the order in which threads were deleted

  datatype Event =
    | Down(s: Sid)            // the running thread calls P
    | Up(s: Sid)              // the running thread calls V
    | HandlerUp(s: Sid)       // an interrupt handler calls V
    | Return                  // the running thread returns from a completed P
    | Yield                   // Thread::Yield, called or forced by the timer
    | Fork(t: Tid)
    | Finish
    | WakeIdle                // Sleep's loop finds a ready thread
    | Resume                  // the thread just switched to continues
    | NewSemaphore(s: Sid, initial: int)

  // ---------------------------------------------------------------- the code

  function SetThread(k: State, t: Tid, mode: Mode, status: Status): State {
    k.(threads := k.threads[t := Thread(mode, status)])
  }

  /** Scheduler::ReadyToRun; List::Append asserts that the thread is not listed yet. */
  function ReadyToRun(k: State, t: Tid, mode: Mode): State
    requires t !in k.ready
  {
    SetThread(k, t, mode, READY).(ready := k.ready + [t])
  }

  /** FindNextToRun followed by Scheduler::Run, up to the return of SWITCH. */
  function Dispatch(k: State, finishing: bool): State
    requires |k.ready| > 0 && k.ready[0] in k.threads
    requires finishing ==> k.toBeDestroyed.None?
  {
    var next := k.ready[0];
    SetThread(k, next, k.threads[next].mode, RUNNING).(
      ready := k.ready[1..],
      cpu := Resuming(next),
      toBeDestroyed := if finishing then Some(k.cpu.t) else k.toBeDestroyed)
  }

  /** Thread::Sleep, once the caller has recorded why the thread sleeps. */
  function Sleep(k: State, t: Tid, mode: Mode): State
    requires |k.ready| > 0 ==> k.ready[0] in k.threads
    requires k.toBeDestroyed.None?
  {
    var k := SetThread(k, t, mode, BLOCKED).(cpu := Idle(t));
    if k.ready == [] then k else Dispatch(k, mode.Finishing?)
  }

  /** One turn of the loop in Semaphore::P. */
  function TryDown(k: State, t: Tid, s: Sid): State
    requires s in k.sems && t in k.threads
    requires |k.ready| > 0 ==> k.ready[0] in k.threads
    requires k.toBeDestroyed.None?
    requires t !in k.sems[s].queue
  {
    var sem := k.sems[s];
    if sem.value == 0 then
      Sleep(k.(sems := k.sems[s := sem.(queue := sem.queue + [t])]), t, Waiting(s))
    else
      SetThread(k, t, Passed(s), RUNNING).(
        sems := k.sems[s := sem.(value := sem.value - 1)],
        cpu := Running(t))
  }

  /** Semaphore::V. */
  function DoUp(k: State, s: Sid): State
    requires s in k.sems
    requires |k.sems[s].queue| > 0 ==> k.sems[s].queue[0] !in k.ready
  {
    var sem := k.sems[s];
    var sem' := sem.(value := sem.value + 1);
    if sem.queue == [] then
      k.(sems := k.sems[s := sem'])
    else
      ReadyToRun(k.(sems := k.sems[s := sem'.(queue := sem.queue[1..])]), sem.queue[0], Woken(s))
  }

  function DoYield(k: State): State
    requires k.cpu.Running? && k.cpu.t in k.threads && k.cpu.t !in k.ready
    requires |k.ready| > 0 ==> k.ready[0] in k.threads
  {
    if k.ready == [] then k
    else
      var d := Dispatch(k, false);
      ReadyToRun(d, k.cpu.t, k.threads[k.cpu.t].mode)
  }

  /** Scheduler::CheckToBeDestroyed. */
  function Cleaned(k: State): State {
    match k.toBeDestroyed
    case None => k
    case Some(d) => k.(threads := k.threads - {d}, destroyed := k.destroyed + [d], toBeDestroyed := None)
  }

  /** The rest of Scheduler::Run (or Thread::Begin) in the thread switched to: delete
      the finished thread, then, if this one was asleep in P, make the loop's next test. */
  function DoResume(k: State): State
    requires k.cpu.Resuming? && k.cpu.t in k.threads
    requires k.toBeDestroyed.Some? ==> k.toBeDestroyed.value != k.cpu.t
    requires |k.ready| > 0 ==> k.ready[0] in k.threads && k.toBeDestroyed != Some(k.ready[0])
    requires var m := k.threads[k.cpu.t].mode; m.Woken? ==> m.sem in k.sems && k.cpu.t !in k.sems[m.sem].queue
  {
    match k.threads[k.cpu.t].mode
    case Woken(s) => TryDown(Cleaned(k), k.cpu.t, s)
    case _ => Cleaned(k).(cpu := Running(k.cpu.t))
  }

  // ------------------------------------------------------------- the machine

  predicate RunningFree(k: State) {
    k.cpu.Running? && k.cpu.t in k.threads && k.threads[k.cpu.t].mode.Free?
  }

  predicate Enabled(k: State, e: Event) {
    match e
    case Down(s) => RunningFree(k) && s in k.sems
    case Up(s) => RunningFree(k) && s in k.sems
    case HandlerUp(s) => !k.cpu.Resuming? && s in k.sems
    case Return => k.cpu.Running? && k.cpu.t in k.threads && k.threads[k.cpu.t].mode.Passed?
    case Yield => k.cpu.Running?
    case Fork(t) => RunningFree(k) && t !in k.threads && t !in k.destroyed
    case Finish => RunningFree(k)
    case WakeIdle => k.cpu.Idle? && k.ready != []
    case Resume => k.cpu.Resuming?
    case NewSemaphore(s, initial) => RunningFree(k) && s !in k.sems && initial >= 0
  }

  ghost function Step(k: State, e: Event): State
    requires Inv(k) && Enabled(k, e)
  {
    StepDefined(k, e);
    match e
    case Down(s) => TryDown(k, k.cpu.t, s)
    case Up(s) => DoUp(k, s)
    case HandlerUp(s) => DoUp(k, s)
    case Return => SetThread(k, k.cpu.t, Free, RUNNING)
    case Yield => DoYield(k)
    case Fork(t) => ReadyToRun(k, t, Free)
    case Finish => Sleep(k, k.cpu.t, Finishing)
    case WakeIdle => Dispatch(k, k.threads[k.cpu.t].mode.Finishing?)
    case Resume => DoResume(k)
    case NewSemaphore(s, initial) => k.(sems := k.sems[s := Semaphore(initial, [])])
  }

  /** The kernel as Kernel::Initialize leaves it: one running thread, no semaphores. */
  function Boot(main: Tid): State {
    State(map[main := Thread(Free, RUNNING)], map[], [], Running(main), None, [])
  }

  // ----------------------------------------------------------- the invariant

  ghost predicate NoDup(q: seq<Tid>) {
    forall i, j | 0 <= i < j < |q| :: q[i] != q[j]
  }

  ghost function Elems(q: seq<Tid>): set<Tid> {
    set t | t in q
  }

  predicate OnCpu(k: State, t: Tid) {
    k.cpu == Running(t) || k.cpu == Resuming(t)
  }

  ghost function InMode(k: State, mode: Mode): set<Tid> {
    set t | t in k.threads && k.threads[t].mode == mode
  }

  ghost function ReadyThreads(k: State): set<Tid> {
    set t | t in k.threads && k.threads[t].status == READY
  }

  /** A semaphore's queue holds exactly its sleepers, and while somebody sleeps
      the value never exceeds the number of woken threads still to recheck. */
  ghost predicate SemInv(sem: Semaphore, waiting: set<Tid>, woken: set<Tid>) {
    && sem.value >= 0
    && NoDup(sem.queue) && Elems(sem.queue) == waiting
    && (sem.queue != [] ==> sem.value <= |woken|)
  }

  ghost predicate SemsInv(k: State) {
    forall s | s in k.sems :: SemInv(k.sems[s], InMode(k, Waiting(s)), InMode(k, Woken(s)))
  }

  ghost predicate ThreadInv(k: State, t: Tid)
    requires t in k.threads
  {
    var th := k.threads[t];
    && (OnCpu(k, t) <==> th.status == RUNNING)
    && match th.mode
       case Free => th.status != BLOCKED
       case Passed(s) => th.status != BLOCKED && s in k.sems
       case Woken(s) => th.status != BLOCKED && s in k.sems && k.cpu != Running(t)
       case Waiting(s) => th.status == BLOCKED && s in k.sems
       case Finishing => th.status == BLOCKED && (k.cpu == Idle(t) || k.toBeDestroyed == Some(t))
  }

  ghost predicate ThreadsInv(k: State) {
    forall t | t in k.threads :: ThreadInv(k, t)
  }

  ghost predicate CpuInv(k: State) {
    && k.cpu.t in k.threads
    && (k.cpu.Idle? ==> !k.threads[k.cpu.t].mode.Free? && !k.threads[k.cpu.t].mode.Passed?)
    && match k.toBeDestroyed
       case None => true
       case Some(d) => d in k.threads && k.threads[d].mode.Finishing? && k.cpu.Resuming? && k.cpu.t != d
  }

  ghost predicate ReadyInv(k: State) {
    NoDup(k.ready) && Elems(k.ready) == ReadyThreads(k)
  }

  ghost predicate GraveInv(k: State) {
    NoDup(k.destroyed) && Elems(k.destroyed) !! k.threads.Keys
  }

  ghost predicate Inv(k: State) {
    SemsInv(k) && ThreadsInv(k) && CpuInv(k) && ReadyInv(k) && GraveInv(k)
  }

  lemma BootInv(main: Tid)
    ensures Inv(Boot(main))
  {
  }

  // --------------------------------------------------------- queues of threads

  lemma AppendElems(q: seq<Tid>, t: Tid)
    ensures Elems(q + [t]) == Elems(q) + {t}
    ensures NoDup(q) && t !in q ==> NoDup(q + [t])
  {
    assert forall x :: x in q + [t] <==> x in q || x == t;
  }

  lemma PopElems(q: seq<Tid>)
    requires q != [] && NoDup(q)
    ensures NoDup(q[1..]) && Elems(q[1..]) == Elems(q) - {q[0]} && q[0] in Elems(q)
  {
    assert q == [q[0]] + q[1..];
    assert forall x :: x in q <==> x == q[0] || x in q[1..];
  }

  lemma RotateElems(q: seq<Tid>, t: Tid)
    requires q != [] && NoDup(q) && t !in q
    ensures NoDup(q[1..] + [t]) && Elems(q[1..] + [t]) == Elems(q) - {q[0]} + {t}
  {
    PopElems(q);
    AppendElems(q[1..], t);
  }

  // ------------------------------------------------- every event preserves it

  /** Steps that move no thread into or out of P keep every semaphore as it was. */
  lemma SemsFrame(k: State, k': State)
    requires SemsInv(k) && k'.sems == k.sems
    requires forall s | s in k.sems ::
               InMode(k', Waiting(s)) == InMode(k, Waiting(s)) && InMode(k', Woken(s)) == InMode(k, Woken(s))
    ensures SemsInv(k')
  {
  }

  lemma SameModes(k: State, k': State)
    requires SemsInv(k) && k'.sems == k.sems && k'.threads.Keys == k.threads.Keys
    requires forall t | t in k.threads :: k'.threads[t].mode == k.threads[t].mode
    ensures SemsInv(k')
  {
    forall mode: Mode ensures InMode(k', mode) == InMode(k, mode) {}
    SemsFrame(k, k');
  }

  lemma DispatchKeepsThreads(k: State)
    requires ThreadsInv(k) && CpuInv(k) && k.cpu.Idle?
    requires k.ready != [] && k.ready[0] in k.threads && k.threads[k.ready[0]].status == READY
    ensures var k' := Dispatch(k, k.threads[k.cpu.t].mode.Finishing?);
            ThreadsInv(k') && CpuInv(k') && ReadyThreads(k') == ReadyThreads(k) - {k.ready[0]}
  {
    var k' := Dispatch(k, k.threads[k.cpu.t].mode.Finishing?);
    assert ThreadInv(k, k.ready[0]) && ThreadInv(k, k.cpu.t);
    forall t | t in k'.threads ensures ThreadInv(k', t) { assert ThreadInv(k, t); }
  }

  /** Leaving the Idle loop for the first ready thread. */
  lemma DispatchKeepsInv(k: State)
    requires Inv(k) && k.cpu.Idle? && k.ready != []
    ensures Dispatch.requires(k, k.threads[k.cpu.t].mode.Finishing?)
    ensures Inv(Dispatch(k, k.threads[k.cpu.t].mode.Finishing?))
  {
    ReadyHead(k);
    PopElems(k.ready);
    DispatchKeepsThreads(k);
    SameModes(k, Dispatch(k, k.threads[k.cpu.t].mode.Finishing?));
  }

  /** Blocking in the Idle loop first, then dispatching if somebody is ready. */
  lemma SleepKeepsInv(k: State, t: Tid, mode: Mode)
    requires k.toBeDestroyed.None?
    requires Inv(SetThread(k, t, mode, BLOCKED).(cpu := Idle(t)))
    requires |k.ready| > 0 ==> k.ready[0] in k.threads
    ensures Inv(Sleep(k, t, mode))
  {
    var idle := SetThread(k, t, mode, BLOCKED).(cpu := Idle(t));
    if k.ready != [] { DispatchKeepsInv(idle); }
  }

  lemma ReadyHead(k: State)
    requires ReadyInv(k)
    ensures |k.ready| > 0 ==> k.ready[0] in k.threads && k.threads[k.ready[0]].status == READY
  {
    if k.ready != [] { assert k.ready[0] in Elems(k.ready); }
  }

  /** What Inv says about a thread on the CPU that is about to try P. */
  lemma OnCpuFacts(k: State, t: Tid)
    requires Inv(k) && OnCpu(k, t)
    ensures t in k.threads && t !in k.ready && k.threads[t].status == RUNNING
    ensures forall s | s in k.sems :: t !in k.sems[s].queue
  {
    assert ThreadInv(k, t);
    assert t !in ReadyThreads(k);
    forall s | s in k.sems ensures t !in k.sems[s].queue {
      assert t !in InMode(k, Waiting(s));
    }
  }

  /** A thread about to block in P, before the scheduler looks for another. */
  function Blocked(k: State, t: Tid, s: Sid): State
    requires s in k.sems
  {
    var q := k.sems[s].(queue := k.sems[s].queue + [t]);
    SetThread(k.(sems := k.sems[s := q]), t, Waiting(s), BLOCKED).(cpu := Idle(t))
  }

  lemma BlockedKeepsSems(k: State, t: Tid, s: Sid)
    requires SemsInv(k) && t in k.threads && s in k.sems && k.sems[s].value == 0 && t !in k.sems[s].queue
    requires k.threads[t].mode.Free? || k.threads[t].mode == Woken(s)
    ensures SemsInv(Blocked(k, t, s))
  {
    var k' := Blocked(k, t, s);
    AppendElems(k.sems[s].queue, t);
    assert InMode(k', Waiting(s)) == InMode(k, Waiting(s)) + {t};
    forall r | r in k'.sems && r != s
      ensures InMode(k', Waiting(r)) == InMode(k, Waiting(r)) && InMode(k', Woken(r)) == InMode(k, Woken(r)) {
    }
  }

  lemma BlockedKeepsThreads(k: State, t: Tid, s: Sid)
    requires ThreadsInv(k) && CpuInv(k) && k.toBeDestroyed.None? && OnCpu(k, t) && s in k.sems
    ensures var k' := Blocked(k, t, s); ThreadsInv(k') && CpuInv(k') && ReadyThreads(k') == ReadyThreads(k)
  {
    var k' := Blocked(k, t, s);
    assert ThreadInv(k, t);
    forall u | u in k'.threads ensures ThreadInv(k', u) { assert ThreadInv(k, u); }
  }

  lemma BlockKeepsInv(k: State, t: Tid, s: Sid)
    requires Inv(k) && k.toBeDestroyed.None? && OnCpu(k, t) && s in k.sems && k.sems[s].value == 0
    requires k.threads[t].mode.Free? || k.threads[t].mode == Woken(s)
    ensures TryDown.requires(k, t, s) && Inv(TryDown(k, t, s))
  {
    OnCpuFacts(k, t);
    ReadyHead(k);
    BlockedKeepsSems(k, t, s);
    BlockedKeepsThreads(k, t, s);
    if k.ready != [] { DispatchKeepsInv(Blocked(k, t, s)); }
  }

  /** A thread that finds the value positive. */
  function Passing(k: State, t: Tid, s: Sid): State
    requires s in k.sems
  {
    SetThread(k, t, Passed(s), RUNNING).(
      sems := k.sems[s := k.sems[s].(value := k.sems[s].value - 1)], cpu := Running(t))
  }

  lemma PassingModes(k: State, t: Tid, s: Sid, r: Sid)
    requires t in k.threads && s in k.sems && (k.threads[t].mode.Free? || k.threads[t].mode == Woken(s))
    ensures var k' := Passing(k, t, s);
            && InMode(k', Waiting(r)) == InMode(k, Waiting(r))
            && InMode(k', Woken(r)) == InMode(k, Woken(r)) - (if r == s then {t} else {})
  {
  }

  lemma PassingKeepsSems(k: State, t: Tid, s: Sid)
    requires SemsInv(k) && t in k.threads && s in k.sems && k.sems[s].value != 0
    requires k.threads[t].mode.Free? || k.threads[t].mode == Woken(s)
    ensures SemsInv(Passing(k, t, s))
  {
    hide InMode;
    forall r | r in k.sems
      ensures var k' := Passing(k, t, s); SemInv(k'.sems[r], InMode(k', Waiting(r)), InMode(k', Woken(r))) {
      PassingModes(k, t, s, r);
      var woken := InMode(k, Woken(r));
      assert |woken - {t}| >= |woken| - 1;
    }
  }

  lemma PassingKeepsThreads(k: State, t: Tid, s: Sid)
    requires ThreadsInv(k) && CpuInv(k) && k.toBeDestroyed.None? && OnCpu(k, t) && s in k.sems
    ensures var k' := Passing(k, t, s); ThreadsInv(k') && CpuInv(k') && ReadyThreads(k') == ReadyThreads(k)
  {
    var k' := Passing(k, t, s);
    assert ThreadInv(k, t);
    forall u | u in k'.threads ensures ThreadInv(k', u) { assert ThreadInv(k, u); }
  }

  lemma PassKeepsInv(k: State, t: Tid, s: Sid)
    requires Inv(k) && k.toBeDestroyed.None? && OnCpu(k, t) && s in k.sems && k.sems[s].value != 0
    requires k.threads[t].mode.Free? || k.threads[t].mode == Woken(s)
    ensures TryDown.requires(k, t, s) && Inv(TryDown(k, t, s))
  {
    OnCpuFacts(k, t);
    ReadyHead(k);
    PassingKeepsSems(k, t, s);
    PassingKeepsThreads(k, t, s);
  }

  lemma TryDownKeepsInv(k: State, t: Tid, s: Sid)
    requires Inv(k) && k.toBeDestroyed.None? && OnCpu(k, t) && s in k.sems
    requires k.threads[t].mode.Free? || k.threads[t].mode == Woken(s)
    ensures TryDown.requires(k, t, s) && Inv(TryDown(k, t, s))
  {
    if k.sems[s].value == 0 { BlockKeepsInv(k, t, s); } else { PassKeepsInv(k, t, s); }
  }

  lemma QueueHead(k: State, s: Sid)
    requires Inv(k) && s in k.sems && k.sems[s].queue != []
    ensures var w := k.sems[s].queue[0];
            && w in k.threads && k.threads[w].mode == Waiting(s) && k.threads[w].status == BLOCKED && w !in k.ready
  {
    var w := k.sems[s].queue[0];
    assert w in Elems(k.sems[s].queue);
    assert w in InMode(k, Waiting(s));
    assert ThreadInv(k, w);
    assert w !in ReadyThreads(k);
  }

  lemma UpKeepsSems(k: State, s: Sid)
    requires SemsInv(k) && DoUp.requires(k, s)
    ensures SemsInv(DoUp(k, s))
  {
    var k' := DoUp(k, s);
    if k.sems[s].queue != [] {
      PopElems(k.sems[s].queue);
      var w := k.sems[s].queue[0];
      assert w in InMode(k, Waiting(s));
      assert InMode(k', Waiting(s)) == InMode(k, Waiting(s)) - {w};
      assert InMode(k', Woken(s)) == InMode(k, Woken(s)) + {w};
    } else {
      assert InMode(k', Waiting(s)) == InMode(k, Waiting(s));
    }
    forall r | r in k'.sems && r != s
      ensures InMode(k', Waiting(r)) == InMode(k, Waiting(r)) && InMode(k', Woken(r)) == InMode(k, Woken(r)) {
    }
  }

  lemma UpKeepsThreads(k: State, s: Sid)
    requires ThreadsInv(k) && CpuInv(k) && DoUp.requires(k, s)
    requires k.sems[s].queue != [] ==>
               var w := k.sems[s].queue[0]; w in k.threads && k.threads[w] == Thread(Waiting(s), BLOCKED)
    ensures var k' := DoUp(k, s);
            && ThreadsInv(k') && CpuInv(k')
            && ReadyThreads(k') == ReadyThreads(k) + (if k.sems[s].queue == [] then {} else {k.sems[s].queue[0]})
  {
    var k' := DoUp(k, s);
    forall t | t in k'.threads ensures ThreadInv(k', t) { assert ThreadInv(k, t); }
  }

  lemma UpKeepsInv(k: State, s: Sid)
    requires Inv(k) && s in k.sems
    ensures DoUp.requires(k, s) && Inv(DoUp(k, s))
  {
    if k.sems[s].queue != [] {
      QueueHead(k, s);
      AppendElems(k.ready, k.sems[s].queue[0]);
    }
    UpKeepsSems(k, s);
    UpKeepsThreads(k, s);
  }

  lemma YieldKeepsThreads(k: State)
    requires ThreadsInv(k) && CpuInv(k) && DoYield.requires(k) && k.ready != []
    requires k.threads[k.ready[0]].status == READY
    ensures var k' := DoYield(k);
            ThreadsInv(k') && CpuInv(k') && ReadyThreads(k') == ReadyThreads(k) - {k.ready[0]} + {k.cpu.t}
  {
    var k' := DoYield(k);
    assert ThreadInv(k, k.cpu.t) && ThreadInv(k, k.ready[0]);
    forall t | t in k'.threads ensures ThreadInv(k', t) { assert ThreadInv(k, t); }
  }

  lemma YieldKeepsSems(k: State)
    requires SemsInv(k) && DoYield.requires(k)
    ensures SemsInv(DoYield(k))
  {
    hide SemsInv;
    SameModes(k, DoYield(k));
  }

  lemma YieldKeepsInv(k: State)
    requires Inv(k) && k.cpu.Running?
    ensures DoYield.requires(k) && Inv(DoYield(k))
  {
    OnCpuFacts(k, k.cpu.t);
    ReadyHead(k);
    if k.ready != [] {
      hide SemsInv, ThreadsInv, NoDup, Elems, ReadyThreads, CpuInv;
      RotateElems(k.ready, k.cpu.t);
      YieldKeepsThreads(k);
      YieldKeepsSems(k);
    }
  }

  lemma CleanedKeepsInv(k: State)
    requires Inv(k) && k.cpu.Resuming?
    ensures Inv(Cleaned(k)) && Cleaned(k).toBeDestroyed.None? && k.cpu.t in Cleaned(k).threads
  {
    if k.toBeDestroyed.Some? {
      var k' := Cleaned(k);
      var d := k.toBeDestroyed.value;
      assert ThreadInv(k, d);
      assert ReadyThreads(k') == ReadyThreads(k);
      assert d !in Elems(k.destroyed);
      AppendElems(k.destroyed, d);
      SemsFrame(k, k');
    }
  }

  lemma ResumeDefined(k: State)
    requires Inv(k) && k.cpu.Resuming?
    ensures DoResume.requires(k)
  {
    OnCpuFacts(k, k.cpu.t);
    ReadyHead(k);
    assert ThreadInv(k, k.cpu.t);
  }

  lemma RunningKeepsInv(k: State)
    requires Inv(k) && k.cpu.Resuming? && k.toBeDestroyed.None? && !k.threads[k.cpu.t].mode.Woken?
    ensures Inv(k.(cpu := Running(k.cpu.t)))
  {
    var k' := k.(cpu := Running(k.cpu.t));
    assert ReadyThreads(k') == ReadyThreads(k);
    SameModes(k, k');
    forall t | t in k'.threads ensures ThreadInv(k', t) { assert ThreadInv(k, t); }
  }

  lemma ResumeKeepsInv(k: State)
    requires Inv(k) && k.cpu.Resuming?
    ensures DoResume.requires(k) && Inv(DoResume(k))
  {
    hide TryDown;
    ResumeDefined(k);
    CleanedKeepsInv(k);
    assert ThreadInv(k, k.cpu.t);
    if k.threads[k.cpu.t].mode.Woken? {
      TryDownKeepsInv(Cleaned(k), k.cpu.t, k.threads[k.cpu.t].mode.sem);
    } else {
      RunningKeepsInv(Cleaned(k));
    }
  }

  lemma FinishKeepsInv(k: State)
    requires Inv(k) && RunningFree(k)
    ensures Sleep.requires(k, k.cpu.t, Finishing) && Inv(Sleep(k, k.cpu.t, Finishing))
  {
    hide Sleep;
    ReadyHead(k);
    assert ThreadInv(k, k.cpu.t);
    var idle := SetThread(k, k.cpu.t, Finishing, BLOCKED).(cpu := Idle(k.cpu.t));
    assert ReadyThreads(idle) == ReadyThreads(k);
    SemsFrame(k, idle);
    SleepKeepsInv(k, k.cpu.t, Finishing);
  }

  lemma NewSemaphoreKeepsSems(k: State, s: Sid, initial: int)
    requires SemsInv(k) && ThreadsInv(k) && s !in k.sems && initial >= 0
    ensures SemsInv(k.(sems := k.sems[s := Semaphore(initial, [])]))
  {
    var k' := k.(sems := k.sems[s := Semaphore(initial, [])]);
    forall t | t in k.threads ensures k.threads[t].mode != Waiting(s) { assert ThreadInv(k, t); }
    assert InMode(k', Waiting(s)) == {};
    forall r | r in k'.sems && r != s
      ensures InMode(k', Waiting(r)) == InMode(k, Waiting(r)) && InMode(k', Woken(r)) == InMode(k, Woken(r)) {
    }
  }

  lemma NewSemaphoreKeepsThreads(k: State, s: Sid, initial: int)
    requires ThreadsInv(k)
    ensures var k' := k.(sems := k.sems[s := Semaphore(initial, [])]); ThreadsInv(k') && ReadyThreads(k') == ReadyThreads(k)
  {
    var k' := k.(sems := k.sems[s := Semaphore(initial, [])]);
    forall t | t in k'.threads ensures ThreadInv(k', t) { assert ThreadInv(k, t); }
  }

  lemma NewSemaphoreKeepsInv(k: State, s: Sid, initial: int)
    requires Inv(k) && s !in k.sems && initial >= 0
    ensures Inv(k.(sems := k.sems[s := Semaphore(initial, [])]))
  {
    hide SemsInv, ThreadsInv, ReadyThreads, NoDup, Elems;
    NewSemaphoreKeepsSems(k, s, initial);
    NewSemaphoreKeepsThreads(k, s, initial);
  }

  lemma ReturnKeepsInv(k: State)
    requires Inv(k) && Enabled(k, Return)
    ensures Inv(SetThread(k, k.cpu.t, Free, RUNNING))
  {
    hide ThreadsInv, SemsInv, NoDup;
    ReturnKeepsThreads(k);
    ReturnKeepsSems(k);
  }

  lemma ReturnKeepsThreads(k: State)
    requires ThreadsInv(k) && CpuInv(k) && Enabled(k, Return)
    ensures var k' := SetThread(k, k.cpu.t, Free, RUNNING);
            ThreadsInv(k') && CpuInv(k') && ReadyThreads(k') == ReadyThreads(k)
  {
    var k' := SetThread(k, k.cpu.t, Free, RUNNING);
    assert ThreadInv(k, k.cpu.t);
    forall t | t in k'.threads ensures ThreadInv(k', t) { assert ThreadInv(k, t); }
  }

  lemma ReturnKeepsSems(k: State)
    requires SemsInv(k) && Enabled(k, Return)
    ensures SemsInv(SetThread(k, k.cpu.t, Free, RUNNING))
  {
    var k' := SetThread(k, k.cpu.t, Free, RUNNING);
    forall s | s in k.sems
      ensures InMode(k', Waiting(s)) == InMode(k, Waiting(s)) && InMode(k', Woken(s)) == InMode(k, Woken(s)) {
    }
    hide SemInv;
    SemsFrame(k, k');
  }

  lemma ForkKeepsSems(k: State, t: Tid)
    requires SemsInv(k) && t !in k.threads && t !in k.ready
    ensures SemsInv(ReadyToRun(k, t, Free))
  {
    SemsFrame(k, ReadyToRun(k, t, Free));
  }

  lemma ForkKeepsThreads(k: State, t: Tid)
    requires ThreadsInv(k) && CpuInv(k) && t !in k.threads && t !in k.ready
    ensures var k' := ReadyToRun(k, t, Free);
            ThreadsInv(k') && CpuInv(k') && ReadyThreads(k') == ReadyThreads(k) + {t}
  {
    var k' := ReadyToRun(k, t, Free);
    forall u | u in k'.threads ensures ThreadInv(k', u) { assert u != t ==> ThreadInv(k, u); }
  }

  lemma ForkKeepsInv(k: State, t: Tid)
    requires Inv(k) && Enabled(k, Fork(t))
    ensures t !in k.ready && Inv(ReadyToRun(k, t, Free))
  {
    hide SemsInv, ThreadsInv, CpuInv, NoDup;
    assert t !in ReadyThreads(k);
    assert t !in k.ready;
    AppendElems(k.ready, t);
    ForkKeepsSems(k, t);
    ForkKeepsThreads(k, t);
  }

  /** The invariant discharges every ASSERT an event meets. */
  lemma StepDefined(k: State, e: Event)
    requires Inv(k) && Enabled(k, e)
    ensures match e
            case Down(s) => TryDown.requires(k, k.cpu.t, s)
            case Up(s) => DoUp.requires(k, s)
            case HandlerUp(s) => DoUp.requires(k, s)
            case Yield => DoYield.requires(k)
            case Fork(t) => t !in k.ready
            case Finish => Sleep.requires(k, k.cpu.t, Finishing)
            case WakeIdle => Dispatch.requires(k, k.threads[k.cpu.t].mode.Finishing?)
            case Resume => DoResume.requires(k)
            case _ => true
  {
    match e
    case Down(s) => TryDownKeepsInv(k, k.cpu.t, s);
    case Up(s) => UpKeepsInv(k, s);
    case HandlerUp(s) => UpKeepsInv(k, s);
    case Yield => YieldKeepsInv(k);
    case Fork(t) => ForkKeepsInv(k, t);
    case Finish => FinishKeepsInv(k);
    case WakeIdle => DispatchKeepsInv(k);
    case Resume => ResumeKeepsInv(k);
    case _ =>
  }

  /** Every enabled event preserves the kernel invariant. */
  lemma StepKeepsInv(k: State, e: Event)
    requires Inv(k) && Enabled(k, e)
    ensures Inv(Step(k, e))
  {
    match e
    case Down(s) => TryDownKeepsInv(k, k.cpu.t, s);
    case Up(s) => UpKeepsInv(k, s);
    case HandlerUp(s) => UpKeepsInv(k, s);
    case Return => ReturnKeepsInv(k);
    case Yield => YieldKeepsInv(k);
    case Fork(t) => ForkKeepsInv(k, t);
    case Finish => FinishKeepsInv(k);
    case WakeIdle => DispatchKeepsInv(k);
    case Resume => ResumeKeepsInv(k);
    case NewSemaphore(s, initial) => NewSemaphoreKeepsInv(k, s, initial);
  }

  // ------------------------------------- what a program over the kernel observes

  /** A thread's progress through P, whether or not it has been woken meanwhile. */
  datatype Phase = Calm | In(sem: Sid) | Past(sem: Sid) | Dying

  function PhaseOf(mode: Mode): Phase {
    match mode
    case Free => Calm
    case Waiting(s) => In(s)
    case Woken(s) => In(s)
    case Passed(s) => Past(s)
    case Finishing => Dying
  }

  ghost function Phases(k: State): map<Tid, Phase> {
    map t | t in k.threads :: PhaseOf(k.threads[t].mode)
  }

  ghost function Values(k: State): map<Sid, int> {
    map s | s in k.sems :: k.sems[s].value
  }

  lemma ObservedFacts(k: State)
    requires Inv(k)
    ensures forall s | s in Values(k) :: Values(k)[s] >= 0
    ensures forall t | t in Phases(k) && (Phases(k)[t].In? || Phases(k)[t].Past?) :: Phases(k)[t].sem in Values(k)
    ensures k.cpu.t in Phases(k)
  {
    forall t | t in k.threads ensures ThreadInv(k, t) {}
  }

  /** The running thread stays in charge after allocating a semaphore or leaving P. */
  lemma StillRunning(k: State, e: Event)
    requires Inv(k) && Enabled(k, e) && (e.Return? || e.NewSemaphore?)
    ensures var k' := Step(k, e); RunningFree(k') && k'.cpu == k.cpu && k.sems.Keys <= k'.sems.Keys
  {
  }

  ghost function Dead(k: State): set<Tid> {
    if k.toBeDestroyed.None? then {} else {k.toBeDestroyed.value}
  }

  lemma DoUpEffect(k: State, s: Sid)
    requires DoUp.requires(k, s)
    requires k.sems[s].queue != [] ==>
               var w := k.sems[s].queue[0]; w in k.threads && k.threads[w].mode == Waiting(s)
    ensures Phases(DoUp(k, s)) == Phases(k) && Values(DoUp(k, s)) == Values(k)[s := k.sems[s].value + 1]
  {
  }

  lemma UpEffect(k: State, e: Event)
    requires Inv(k) && Enabled(k, e) && (e.Up? || e.HandlerUp?)
    ensures var k' := Step(k, e);
            Phases(k') == Phases(k) && Values(k') == Values(k)[e.s := k.sems[e.s].value + 1]
  {
    hide Inv;
    StepDefined(k, e);
    if k.sems[e.s].queue != [] { QueueHead(k, e.s); }
    DoUpEffect(k, e.s);
  }

  lemma DispatchEffect(k: State, finishing: bool)
    requires |k.ready| > 0 && k.ready[0] in k.threads
    requires finishing ==> k.toBeDestroyed.None?
    ensures var k' := Dispatch(k, finishing); Phases(k') == Phases(k) && Values(k') == Values(k)
  {
  }

  lemma SleepEffect(k: State, t: Tid, mode: Mode)
    requires |k.ready| > 0 ==> k.ready[0] in k.threads
    requires k.toBeDestroyed.None?
    ensures var k' := Sleep(k, t, mode);
            Phases(k') == Phases(k)[t := PhaseOf(mode)] && Values(k') == Values(k)
  {
    var idle := SetThread(k, t, mode, BLOCKED).(cpu := Idle(t));
    assert Phases(idle) == Phases(k)[t := PhaseOf(mode)];
    if k.ready != [] { DispatchEffect(idle, mode.Finishing?); }
  }

  lemma TryDownEffect(k: State, t: Tid, s: Sid)
    requires s in k.sems && t in k.threads && k.toBeDestroyed.None? && t !in k.sems[s].queue
    requires |k.ready| > 0 ==> k.ready[0] in k.threads
    ensures var k' := TryDown(k, t, s);
            if k.sems[s].value != 0 then
              Phases(k') == Phases(k)[t := Past(s)] && Values(k') == Values(k)[s := k.sems[s].value - 1]
            else Phases(k') == Phases(k)[t := In(s)] && Values(k') == Values(k)
  {
    if k.sems[s].value == 0 {
      var q := k.(sems := k.sems[s := k.sems[s].(queue := k.sems[s].queue + [t])]);
      assert Phases(q) == Phases(k) && Values(q) == Values(k);
      SleepEffect(q, t, Waiting(s));
    }
  }

  /** P either completes, taking one from a positive value, or leaves the caller in it. */
  lemma DownEffect(k: State, s: Sid)
    requires Inv(k) && Enabled(k, Down(s))
    ensures var k' := Step(k, Down(s)); var t := k.cpu.t;
            if k.sems[s].value > 0 then
              Phases(k') == Phases(k)[t := Past(s)] && Values(k') == Values(k)[s := k.sems[s].value - 1]
            else Phases(k') == Phases(k)[t := In(s)] && Values(k') == Values(k)
  {
    StepDefined(k, Down(s));
    TryDownEffect(k, k.cpu.t, s);
  }

  /** The semaphore whose P the resuming thread completes, if it does. */
  ghost function Completing(k: State): Option<Sid>
    requires k.cpu.t in k.threads
  {
    var mode := k.threads[k.cpu.t].mode;
    if mode.Woken? && mode.sem in k.sems && k.sems[mode.sem].value > 0 then Some(mode.sem) else None
  }

  lemma DoResumeEffect(k: State)
    requires DoResume.requires(k) && k.toBeDestroyed != Some(k.cpu.t)
    requires var m := k.threads[k.cpu.t].mode; m.Woken? ==> k.sems[m.sem].value >= 0
    ensures var k' := DoResume(k); var t := k.cpu.t; var kept := Phases(k) - Dead(k);
            match Completing(k)
            case None => Phases(k') == kept && Values(k') == Values(k)
            case Some(s) =>
              && Phases(k)[t] == In(s) && Phases(k') == kept[t := Past(s)]
              && Values(k') == Values(k)[s := k.sems[s].value - 1]
  {
    var t := k.cpu.t;
    var c := Cleaned(k);
    assert Phases(c) == Phases(k) - Dead(k);
    match k.threads[t].mode
    case Woken(s) =>
      TryDownEffect(c, t, s);
      if k.sems[s].value == 0 { assert Phases(c)[t := In(s)] == Phases(c); }
    case _ =>
  }

  /** Continuing in another thread deletes a finished one and may complete its P. */
  lemma ResumeEffect(k: State)
    requires Inv(k) && k.cpu.Resuming?
    ensures var k' := Step(k, Resume); var t := k.cpu.t; var kept := Phases(k) - Dead(k);
            && t in kept && (forall d | d in Dead(k) :: d in k.threads && Phases(k)[d] == Dying)
            && match Completing(k)
               case None => Phases(k') == kept && Values(k') == Values(k)
               case Some(s) =>
                 && Phases(k)[t] == In(s) && Phases(k') == kept[t := Past(s)]
                 && Values(k') == Values(k)[s := k.sems[s].value - 1]
  {
    assert ThreadInv(k, k.cpu.t);
    var m := k.threads[k.cpu.t].mode;
    StepDefined(k, Resume);
    DoResumeEffect(k);
  }

  lemma YieldEffect(k: State)
    requires DoYield.requires(k)
    ensures Phases(DoYield(k)) == Phases(k) && Values(DoYield(k)) == Values(k)
  {
    if k.ready != [] {
      var d := Dispatch(k, false);
      DispatchEffect(k, false);
      assert Phases(ReadyToRun(d, k.cpu.t, k.threads[k.cpu.t].mode)) == Phases(d);
    }
  }

  /** Storing the same or a harmless mode changes at most one phase. */
  lemma SetThreadEffect(k: State, t: Tid, mode: Mode, status: Status)
    ensures Phases(SetThread(k, t, mode, status)) == Phases(k)[t := PhaseOf(mode)]
    ensures Values(SetThread(k, t, mode, status)) == Values(k)
  {
  }

  /** The remaining events leave every semaphore's value alone. */
  lemma QuietEffect(k: State, e: Event)
    requires Inv(k) && Enabled(k, e)
    requires e.Return? || e.Yield? || e.Fork? || e.Finish? || e.WakeIdle? || e.NewSemaphore?
    ensures Values(Step(k, e)) == (if e.NewSemaphore? then Values(k)[e.s := e.initial] else Values(k))
    ensures Phases(Step(k, e)) ==
            match e
            case Return => Phases(k)[k.cpu.t := Calm]
            case Fork(t) => Phases(k)[t := Calm]
            case Finish => Phases(k)[k.cpu.t := Dying]
            case _ => Phases(k)
  {
    hide Inv, Phases, Values, SetThread, Sleep, Dispatch, DoYield;
    CpuThread(k);
    StepDefined(k, e);
    match e
    case Return => SetThreadEffect(k, k.cpu.t, Free, RUNNING);
    case Yield => YieldEffect(k);
    case Fork(t) => ReadyEffect(k, t, Free);
    case Finish => SleepEffect(k, k.cpu.t, Finishing);
    case WakeIdle => DispatchEffect(k, k.threads[k.cpu.t].mode.Finishing?);
    case NewSemaphore(s, initial) => NewSemaphoreEffect(k, s, initial);
  }

  lemma CpuThread(k: State)
    requires Inv(k)
    ensures k.cpu.t in k.threads
  {
  }

  lemma ReadyEffect(k: State, t: Tid, mode: Mode)
    requires t !in k.ready
    ensures var k' := ReadyToRun(k, t, mode); Phases(k') == Phases(k)[t := PhaseOf(mode)] && Values(k') == Values(k)
  {
  }

  lemma NewSemaphoreEffect(k: State, s: Sid, initial: int)
    ensures var k' := k.(sems := k.sems[s := Semaphore(initial, [])]);
            Phases(k') == Phases(k) && Values(k') == Values(k)[s := initial]
  {
  }

  // ---------------------------------------------------- one semaphore in isolation

  /** Everything a program sees of one semaphore: its value and who is in or past P. */
  datatype View = View(value: int, entering: set<Tid>, past: set<Tid>)

  ghost function Phased(ps: map<Tid, Phase>, p: Phase): set<Tid> {
    set t | t in ps && ps[t] == p
  }

  ghost function ViewIn(ps: map<Tid, Phase>, vs: map<Sid, int>, s: Sid): View
    requires s in vs
  {
    View(vs[s], Phased(ps, In(s)), Phased(ps, Past(s)))
  }

  ghost function ViewOf(k: State, s: Sid): View
    requires s in k.sems
  {
    ViewIn(Phases(k), Values(k), s)
  }

  /** Changing one thread's phase for reasons that do not concern s. */
  lemma ViewUntouched(ps: map<Tid, Phase>, vs: map<Sid, int>, s: Sid, t: Tid, p: Phase)
    requires s in vs && p != In(s) && p != Past(s) && (t in ps ==> ps[t] != In(s) && ps[t] != Past(s))
    ensures ViewIn(ps[t := p], vs, s) == ViewIn(ps, vs, s)
  {
    assert Phased(ps[t := p], In(s)) == Phased(ps, In(s));
    assert Phased(ps[t := p], Past(s)) == Phased(ps, Past(s));
  }

  /** Moving one thread into, past or out of P on s. */
  lemma ViewEntered(ps: map<Tid, Phase>, vs: map<Sid, int>, s: Sid, t: Tid)
    requires s in vs && t in ps && ps[t] == Calm
    ensures var v := ViewIn(ps, vs, s); ViewIn(ps[t := In(s)], vs, s) == v.(entering := v.entering + {t})
  {
    assert Phased(ps[t := In(s)], In(s)) == Phased(ps, In(s)) + {t};
    assert Phased(ps[t := In(s)], Past(s)) == Phased(ps, Past(s));
  }

  lemma ViewPassed(ps: map<Tid, Phase>, vs: map<Sid, int>, s: Sid, t: Tid)
    requires s in vs && t in ps && (ps[t] == Calm || ps[t] == In(s))
    ensures var v := ViewIn(ps, vs, s);
            && (ps[t] == In(s) <==> t in v.entering)
            && ViewIn(ps[t := Past(s)], vs[s := vs[s] - 1], s) == View(v.value - 1, v.entering - {t}, v.past + {t})
            && (ps[t] == Calm ==> v.entering - {t} == v.entering)
  {
    assert Phased(ps[t := Past(s)], In(s)) == Phased(ps, In(s)) - {t};
    assert Phased(ps[t := Past(s)], Past(s)) == Phased(ps, Past(s)) + {t};
  }

  lemma ViewRaised(ps: map<Tid, Phase>, vs: map<Sid, int>, s: Sid)
    requires s in vs
    ensures var v := ViewIn(ps, vs, s); ViewIn(ps, vs[s := vs[s] + 1], s) == v.(value := v.value + 1)
  {
  }

  lemma ViewLeft(ps: map<Tid, Phase>, vs: map<Sid, int>, s: Sid, t: Tid)
    requires s in vs && t in ps && ps[t] == Past(s)
    ensures var v := ViewIn(ps, vs, s); ViewIn(ps[t := Calm], vs, s) == v.(past := v.past - {t})
  {
    assert Phased(ps[t := Calm], In(s)) == Phased(ps, In(s));
    assert Phased(ps[t := Calm], Past(s)) == Phased(ps, Past(s)) - {t};
  }

  lemma ViewRemove(ps: map<Tid, Phase>, vs: map<Sid, int>, s: Sid, dead: set<Tid>)
    requires s in vs && forall d | d in dead :: d in ps && ps[d] == Dying
    ensures ViewIn(ps - dead, vs, s) == ViewIn(ps, vs, s)
  {
    assert Phased(ps - dead, In(s)) == Phased(ps, In(s));
    assert Phased(ps - dead, Past(s)) == Phased(ps, Past(s));
  }

  predicate Touches(k: State, e: Event, s: Sid) {
    match e
    case Down(r) => r == s
    case Up(r) => r == s
    case HandlerUp(r) => r == s
    case Return => k.cpu.t in k.threads && k.threads[k.cpu.t].mode == Passed(s)
    case _ => false
  }

  /** An event on other business leaves a semaphore's view alone, except that the thread
      resumed may be one that now completes its P on it. */
  lemma ViewFrame(k: State, e: Event, s: Sid)
    requires Inv(k) && Enabled(k, e) && s in k.sems && !Touches(k, e, s)
    ensures s in Step(k, e).sems
    ensures var v, v', t := ViewOf(k, s), ViewOf(Step(k, e), s), k.cpu.t;
            if e.Resume? && Completing(k) == Some(s) then
              t in v.entering && v.value > 0 && v' == View(v.value - 1, v.entering - {t}, v.past + {t})
            else v' == v
  {
    hide Step, Inv, Phased, ViewOf;
    match e
    case Down(r) => ViewFrameDown(k, r, s);
    case Up(r) => ViewFrameUp(k, e, s);
    case HandlerUp(r) => ViewFrameUp(k, e, s);
    case Resume => ViewResume(k, s);
    case _ => ViewFrameQuiet(k, e, s);
  }

  lemma ViewFrameDown(k: State, r: Sid, s: Sid)
    requires Inv(k) && Enabled(k, Down(r)) && s in k.sems && r != s
    ensures s in Step(k, Down(r)).sems && ViewOf(Step(k, Down(r)), s) == ViewOf(k, s)
  {
    assert s in Values(k) && k.cpu.t in k.threads;
    var ps, vs, t := Phases(k), Values(k), k.cpu.t;
    hide Step, Inv, Phased;
    DownEffect(k, r);
    ViewUntouched(ps, vs, s, t, In(r));
    ViewUntouched(ps, vs, s, t, Past(r));
    assert s in Values(Step(k, Down(r)));
  }

  lemma ViewFrameUp(k: State, e: Event, s: Sid)
    requires Inv(k) && Enabled(k, e) && (e.Up? || e.HandlerUp?) && s in k.sems && e.s != s
    ensures s in Step(k, e).sems && ViewOf(Step(k, e), s) == ViewOf(k, s)
  {
    assert s in Values(k);
    hide Step, Inv, Phased;
    UpEffect(k, e);
    assert s in Values(Step(k, e));
  }

  lemma ViewFrameQuiet(k: State, e: Event, s: Sid)
    requires Inv(k) && Enabled(k, e) && s in k.sems && !Touches(k, e, s)
    requires e.Return? || e.Yield? || e.Fork? || e.Finish? || e.WakeIdle? || e.NewSemaphore?
    ensures s in Step(k, e).sems && ViewOf(Step(k, e), s) == ViewOf(k, s)
  {
    assert s in Values(k) && k.cpu.t in k.threads;
    var ps, vs, t := Phases(k), Values(k), k.cpu.t;
    hide Step, Inv, Phased;
    QuietEffect(k, e);
    match e {
      case Return => ViewUntouched(ps, vs, s, t, Calm);
      case Fork(u) => ViewUntouched(ps, vs, s, u, Calm);
      case Finish => ViewUntouched(ps, vs, s, t, Dying);
      case _ =>
    }
    assert s in Values(Step(k, e));
  }

  lemma ViewResume(k: State, s: Sid)
    requires Inv(k) && k.cpu.Resuming? && s in k.sems
    ensures s in Step(k, Resume).sems
    ensures var v, v', t := ViewOf(k, s), ViewOf(Step(k, Resume), s), k.cpu.t;
            if Completing(k) == Some(s) then
              t in v.entering && v.value > 0 && v' == View(v.value - 1, v.entering - {t}, v.past + {t})
            else v' == v
  {
    hide Step, Inv, Phased, ViewIn;
    ResumeEffect(k);
    CompletingView(Phases(k), Values(k), s, k.cpu.t, Dead(k), Completing(k));
    assert s in Values(k) && s in Values(Step(k, Resume));
    assert ViewIn(Phases(k), Values(k), s).value == k.sems[s].value by { ViewValue(k, s); }
  }

  lemma ViewValue(k: State, s: Sid)
    requires s in k.sems
    ensures ViewOf(k, s).value == k.sems[s].value
  {
  }

  lemma CompletingView(ps: map<Tid, Phase>, vs: map<Sid, int>, s: Sid, t: Tid, dead: set<Tid>, done: Option<Sid>)
    requires s in vs && (forall d | d in dead :: d in ps && ps[d] == Dying) && t in ps && t !in dead
    requires done.Some? ==> ps[t] == In(done.value) && done.value in vs
    ensures var v := ViewIn(ps, vs, s);
            match done
            case None => ViewIn(ps - dead, vs, s) == v
            case Some(r) =>
              ViewIn((ps - dead)[t := Past(r)], vs[r := vs[r] - 1], s) ==
              if r == s then View(v.value - 1, v.entering - {t}, v.past + {t}) else v
    ensures done == Some(s) ==> t in ViewIn(ps, vs, s).entering
  {
    ViewRemove(ps, vs, s, dead);
    match done
    case None =>
    case Some(r) =>
      if r == s { ViewPassed(ps - dead, vs, s, t); } else { ViewUntouched(ps - dead, vs, s, t, Past(r)); }
  }

  /** The events on the semaphore itself. */
  lemma ViewDown(k: State, s: Sid)
    requires Inv(k) && Enabled(k, Down(s))
    ensures s in Step(k, Down(s)).sems
    ensures var v, v', t := ViewOf(k, s), ViewOf(Step(k, Down(s)), s), k.cpu.t;
            v' == if v.value > 0 then View(v.value - 1, v.entering, v.past + {t}) else View(v.value, v.entering + {t}, v.past)
  {
    hide Step, Inv, Phased;
    assert s in Values(k);
    var ps, t := Phases(k), k.cpu.t;
    DownEffect(k, s);
    if k.sems[s].value > 0 { ViewPassed(ps, Values(k), s, t); } else { ViewEntered(ps, Values(k), s, t); }
    assert s in Values(Step(k, Down(s)));
  }

  lemma ViewUp(k: State, e: Event)
    requires Inv(k) && Enabled(k, e) && (e.Up? || e.HandlerUp?)
    ensures e.s in Step(k, e).sems
    ensures var v := ViewOf(k, e.s); ViewOf(Step(k, e), e.s) == v.(value := v.value + 1)
  {
    hide Step, Inv, ViewIn, Phases;
    UpEffect(k, e);
    assert e.s in Values(k) && e.s in Values(Step(k, e));
    ViewRaised(Phases(k), Values(k), e.s);
    assert Values(k)[e.s] == k.sems[e.s].value;
  }

  lemma ViewReturn(k: State, s: Sid)
    requires Inv(k) && Enabled(k, Return) && s in k.sems && k.threads[k.cpu.t].mode == Passed(s)
    ensures s in Step(k, Return).sems
    ensures var v := ViewOf(k, s); ViewOf(Step(k, Return), s) == v.(past := v.past - {k.cpu.t})
  {
    hide Step, Inv, Phased;
    assert s in Values(k);
    QuietEffect(k, Return);
    ViewLeft(Phases(k), Values(k), s, k.cpu.t);
    assert s in Values(Step(k, Return));
  }

  // --------------------------------------------------------------- whole runs

  ghost predicate ValidRun(k: State, es: seq<Event>)
    requires Inv(k)
    decreases |es|
  {
    es == [] || (Enabled(k, es[0]) && (StepKeepsInv(k, es[0]); ValidRun(Step(k, es[0]), es[1..])))
  }

  ghost function Exec(k: State, es: seq<Event>): State
    requires Inv(k) && ValidRun(k, es)
    decreases |es|
  {
    if es == [] then k else StepKeepsInv(k, es[0]); Exec(Step(k, es[0]), es[1..])
  }

  ghost predicate Reachable(k: State) {
    exists main, es | Inv(Boot(main)) && ValidRun(Boot(main), es) :: Exec(Boot(main), es) == k
  }

  lemma {:induction false} ExecKeepsInv(k: State, es: seq<Event>)
    requires Inv(k) && ValidRun(k, es)
    ensures Inv(Exec(k, es))
    decreases |es|
  {
    hide Step, Inv, Enabled;
    if es != [] {
      StepKeepsInv(k, es[0]);
      ExecKeepsInv(Step(k, es[0]), es[1..]);
    }
  }

  /** In every reachable state every thread that exists and has not called Finish is
      in exactly one place: the CPU, one slot of the ready list, or one slot of one
      semaphore's queue; and its status names that place. */
  lemma ExactlyOnePlace(k: State, t: Tid)
    requires Reachable(k) && t in k.threads && !k.threads[t].mode.Finishing?
    ensures match k.threads[t].status
            case RUNNING => OnCpu(k, t) && t !in k.ready && forall s | s in k.sems :: t !in k.sems[s].queue
            case READY => !OnCpu(k, t) && multiset(k.ready)[t] == 1 && forall s | s in k.sems :: t !in k.sems[s].queue
            case BLOCKED =>
              && !OnCpu(k, t) && t !in k.ready
              && exists s | s in k.sems :: multiset(k.sems[s].queue)[t] == 1
                                           && forall r | r in k.sems && r != s :: t !in k.sems[r].queue
  {
    ReachableInv(k);
    assert ThreadInv(k, t);
    assert t in k.ready <==> t in Elems(k.ready);
    forall s | s in k.sems ensures t in k.sems[s].queue <==> k.threads[t].mode == Waiting(s) {
      assert t in Elems(k.sems[s].queue) <==> t in InMode(k, Waiting(s));
    }
    if k.threads[t].status == READY {
      NoDupCount(k.ready, t);
    }
    if k.threads[t].status == BLOCKED {
      NoDupCount(k.sems[k.threads[t].mode.sem].queue, t);
    }
  }

  lemma ReachableInv(k: State)
    requires Reachable(k)
    ensures Inv(k)
  {
    var main, es :| Inv(Boot(main)) && ValidRun(Boot(main), es) && Exec(Boot(main), es) == k;
    ExecKeepsInv(Boot(main), es);
  }

  lemma {:induction false} NoDupCount(q: seq<Tid>, t: Tid)
    requires NoDup(q) && t in q
    ensures multiset(q)[t] == 1
  {
    var i :| 0 <= i < |q| && q[i] == t;
    assert q == q[..i] + [t] + q[i + 1..];
    assert t !in q[..i] && t !in q[i + 1..];
  }

  /** No wake-up is lost: a positive value with a sleeper on the queue means that
      some woken thread is already on its way to recheck the value. */
  lemma NoLostWakeup(k: State, s: Sid)
    requires Reachable(k) && s in k.sems
    ensures k.sems[s].queue != [] ==> 0 <= k.sems[s].value <= |InMode(k, Woken(s))|
    ensures forall t | t in InMode(k, Woken(s)) :: t in k.ready || k.cpu == Resuming(t)
    ensures k.sems[s].value > 0 && k.sems[s].queue != [] ==> exists t :: t in InMode(k, Woken(s))
  {
    ReachableInv(k);
    forall t | t in InMode(k, Woken(s)) ensures t in k.ready || k.cpu == Resuming(t) {
      assert ThreadInv(k, t);
      assert t in Elems(k.ready) <==> t in ReadyThreads(k);
    }
    if k.sems[s].value > 0 && k.sems[s].queue != [] {
      assert |InMode(k, Woken(s))| > 0;
      var t :| t in InMode(k, Woken(s));
    }
  }

  // ------------------------------------------------- counting P and V in a run

  predicate IsUp(e: Event, s: Sid) {
    e == Up(s) || e == HandlerUp(s)
  }

  /** A P on s completes: a thread, arriving or woken, gets past it. */
  ghost predicate CompletesDown(k: State, e: Event, s: Sid)
    requires Inv(k) && Enabled(k, e)
  {
    (e.Down? || e.Resume?) && GetsPast(Phases(k), Phases(Step(k, e)), k.cpu.t, s)
  }

  ghost predicate GetsPast(ps: map<Tid, Phase>, ps': map<Tid, Phase>, t: Tid, s: Sid) {
    t in ps && t in ps' && ps[t] != Past(s) && ps'[t] == Past(s)
  }

  ghost function Ups(es: seq<Event>, s: Sid): nat {
    if es == [] then 0 else (if IsUp(es[0], s) then 1 else 0) + Ups(es[1..], s)
  }

  ghost function Downs(k: State, es: seq<Event>, s: Sid): nat
    requires Inv(k) && ValidRun(k, es)
    decreases |es|
  {
    if es == [] then 0
    else
      StepKeepsInv(k, es[0]);
      (if CompletesDown(k, es[0], s) then 1 else 0) + Downs(Step(k, es[0]), es[1..], s)
  }

  lemma ValueAfterStep(k: State, e: Event, s: Sid)
    requires Inv(k) && Enabled(k, e) && s in Values(k)
    ensures s in Values(Step(k, e))
    ensures Values(Step(k, e))[s] ==
            Values(k)[s] + (if IsUp(e, s) then 1 else 0) - (if CompletesDown(k, e, s) then 1 else 0)
  {
    hide Step, Inv;
    match e
    case Down(r) => DownValue(k, r, s);
    case Up(r) => UpEffect(k, e);
    case HandlerUp(r) => UpEffect(k, e);
    case Resume => ResumeValue(k, s);
    case _ => QuietEffect(k, e);
  }

  lemma DownValue(k: State, r: Sid, s: Sid)
    requires Inv(k) && Enabled(k, Down(r)) && s in Values(k)
    ensures var k' := Step(k, Down(r));
            && s in Values(k')
            && Values(k')[s] == Values(k)[s] - (if GetsPast(Phases(k), Phases(k'), k.cpu.t, s) then 1 else 0)
  {
    DownEffect(k, r);
  }

  lemma ResumeValue(k: State, s: Sid)
    requires Inv(k) && k.cpu.Resuming? && s in Values(k)
    ensures var k' := Step(k, Resume);
            && s in Values(k')
            && Values(k')[s] == Values(k)[s] - (if GetsPast(Phases(k), Phases(k'), k.cpu.t, s) then 1 else 0)
  {
    ResumeEffect(k);
  }

  /** Over any run a semaphore's value is its initial value plus the completed Vs
      minus the completed Ps, and it never goes below zero. */
  lemma {:induction false} SemaphoreBalance(k: State, es: seq<Event>, s: Sid)
    requires Inv(k) && ValidRun(k, es) && s in Values(k)
    ensures s in Values(Exec(k, es))
    ensures Values(Exec(k, es))[s] == Values(k)[s] + Ups(es, s) - Downs(k, es, s) >= 0
    decreases |es|
  {
    hide Step, Enabled;
    if es != [] {
      StepKeepsInv(k, es[0]);
      ValueAfterStep(k, es[0], s);
      SemaphoreBalance(Step(k, es[0]), es[1..], s);
    }
  }

  // --------------------------------------------------- the ready list is a FIFO

  /** The events that end in SWITCH are those that leave the CPU resuming a thread. */
  ghost predicate Dispatches(k: State, e: Event)
    requires Inv(k) && Enabled(k, e)
  {
    Step(k, e).cpu.Resuming?
  }

  /** The threads given the CPU during a run, in order. */
  ghost function DispatchTrace(k: State, es: seq<Event>): seq<Tid>
    requires Inv(k) && ValidRun(k, es)
    decreases |es|
  {
    if es == [] then []
    else
      StepKeepsInv(k, es[0]);
      var k' := Step(k, es[0]);
      (if Dispatches(k, es[0]) then [k'.cpu.t] else []) + DispatchTrace(k', es[1..])
  }

  /** A step either appends to the ready list, or gives the CPU to its head. */
  lemma ReadyAfterStep(k: State, e: Event)
    requires Inv(k) && Enabled(k, e)
    ensures var k' := Step(k, e);
            if Dispatches(k, e) then
              k.ready != [] && k'.cpu == Resuming(k.ready[0]) && k.ready[1..] <= k'.ready
            else k.ready <= k'.ready
  {
  }

  lemma PrefixThroughStep(a: seq<Tid>, b: seq<Tid>, trace: seq<Tid>, rest: seq<Tid>)
    requires trace == [] ==> a <= b
    requires trace != [] ==> a != [] && trace == [a[0]] && a[1..] <= b
    requires b <= rest
    ensures a <= trace + rest
  {
    if trace != [] { assert a == [a[0]] + a[1..]; }
  }

  lemma JoinedPrefix(a: seq<Tid>, b: seq<Tid>, trace: seq<Tid>, later: seq<Tid>, end: seq<Tid>)
    requires trace == [] ==> a <= b
    requires trace != [] ==> a != [] && trace == [a[0]] && a[1..] <= b
    requires b <= later + end
    ensures a <= (trace + later) + end
  {
    PrefixThroughStep(a, b, trace, later + end);
    assert trace + (later + end) == (trace + later) + end;
  }

  /** The thread at position i of the ready list is the one given the CPU by the
      (i+1)-st later dispatch, and until then it only moves up the list. */
  lemma {:induction false} ReadyListIsFifo(k: State, es: seq<Event>)
    requires Inv(k) && ValidRun(k, es)
    ensures k.ready <= DispatchTrace(k, es) + Exec(k, es).ready
    decreases |es|
  {
    hide Step, Inv, Enabled;
    if es != [] {
      StepKeepsInv(k, es[0]);
      var k' := Step(k, es[0]);
      var trace := if Dispatches(k, es[0]) then [k'.cpu.t] else [];
      ReadyAfterStep(k, es[0]);
      ReadyListIsFifo(k', es[1..]);
      JoinedPrefix(k.ready, k'.ready, trace, DispatchTrace(k', es[1..]), Exec(k, es).ready);
    }
  }

  // --------------------------------------------- a semaphore's queue is a FIFO

  /** The threads that Vs of a semaphore put on the ready list during a run, in order. */
  ghost function WakeTrace(k: State, es: seq<Event>, s: Sid): seq<Tid>
    requires Inv(k) && ValidRun(k, es) && s in k.sems
    decreases |es|
  {
    if es == [] then []
    else
      StepKeepsInv(k, es[0]);
      SleepersAfterStep(k, es[0], s);
      var k' := Step(k, es[0]);
      (if IsUp(es[0], s) then k'.ready[|k.ready|..] else []) + WakeTrace(k', es[1..], s)
  }

  /** A V takes the first sleeper off the queue and puts it at the end of the ready list; nothing
      else shortens the queue. */
  lemma SleepersAfterStep(k: State, e: Event, s: Sid)
    requires Inv(k) && Enabled(k, e) && s in k.sems
    ensures var k', q := Step(k, e), k.sems[s].queue;
            && s in k'.sems
            && (if IsUp(e, s) && q != [] then k'.ready == k.ready + [q[0]] && k'.sems[s].queue == q[1..]
                else q <= k'.sems[s].queue)
            && (IsUp(e, s) ==> k.ready <= k'.ready && (q == [] ==> k'.ready == k.ready))
  {
    hide SemsInv, ThreadsInv, CpuInv, ReadyInv, GraveInv;
  }

  /** The thread at position i of a semaphore's queue is the one made ready by the (i+1)-st later
      V, and until then it only moves up the queue. */
  lemma {:induction false} SleepersWakeInOrder(k: State, es: seq<Event>, s: Sid)
    requires Inv(k) && ValidRun(k, es) && s in k.sems
    ensures s in Exec(k, es).sems && k.sems[s].queue <= WakeTrace(k, es, s) + Exec(k, es).sems[s].queue
    decreases |es|
  {
    hide Step, Inv, Enabled;
    if es != [] {
      StepKeepsInv(k, es[0]);
      SleepersAfterStep(k, es[0], s);
      var k' := Step(k, es[0]);
      SleepersWakeInOrder(k', es[1..], s);
      var trace := if IsUp(es[0], s) then k'.ready[|k.ready|..] else [];
      JoinedPrefix(k.sems[s].queue, k'.sems[s].queue, trace, WakeTrace(k', es[1..], s), Exec(k, es).sems[s].queue);
    }
  }

  // ------------------------------------------------------- who has the CPU next

  /** The event makes the thread on the CPU give it up: it yields to others, or goes to sleep, or
      finishes. */
  ghost predicate GivesUp(k: State, e: Event)
    requires Inv(k) && Enabled(k, e)
  {
    match e
    case Yield => k.ready != []
    case Down(s) => k.sems[s].value == 0
    case Finish => true
    case Resume => k.threads[k.cpu.t].mode.Woken? && k.sems[k.threads[k.cpu.t].mode.sem].value == 0
    case _ => false
  }

  /** Then the first ready thread gets it at once, and a yielding thread goes to the end of the
      list; with nobody ready the CPU is idle.  Otherwise the thread keeps the CPU. */
  lemma NextOnCpu(k: State, e: Event)
    requires Inv(k) && Enabled(k, e)
    ensures k.cpu.t in k.threads
    ensures var k', t, awake := Step(k, e), k.cpu.t, if e.Yield? then [k.cpu.t] else [];
            if GivesUp(k, e) then
              if k.ready == [] then k'.cpu == Idle(t) && k'.ready == []
              else k'.cpu == Resuming(k.ready[0]) && k'.ready == k.ready[1..] + awake
            else if e.WakeIdle? then k'.cpu == Resuming(k.ready[0]) && k'.ready == k.ready[1..]
            else if e.Resume? then k'.cpu == Running(t)
            else k'.cpu == k.cpu && k.ready <= k'.ready
  {
    hide SemsInv, ReadyInv, GraveInv, ThreadsInv, CpuInv;
    GivesUpDefined(k);
  }

  lemma GivesUpDefined(k: State)
    requires Inv(k)
    ensures k.cpu.t in k.threads
    ensures k.threads[k.cpu.t].mode.Woken? ==> k.threads[k.cpu.t].mode.sem in k.sems
  {
    assert ThreadInv(k, k.cpu.t);
  }

  // ------------------------------------------------------------------ progress

  /** In every reachable state the thread on the CPU can go on, and a ready thread can be given
      an idle CPU.  With the CPU idle and nobody ready, every thread that has not finished is
      asleep on a semaphore whose value is zero. */
  lemma NeverStuck(k: State)
    requires Reachable(k)
    ensures k.cpu.Resuming? ==> Enabled(k, Resume)
    ensures k.cpu.Running? ==>
              && k.cpu.t in k.threads && Enabled(k, Yield)
              && match k.threads[k.cpu.t].mode
                 case Free => Enabled(k, Finish) && forall s | s in k.sems :: Enabled(k, Down(s)) && Enabled(k, Up(s))
                 case Passed(_) => Enabled(k, Return)
                 case _ => false
    ensures k.cpu.Idle? && k.ready != [] ==> Enabled(k, WakeIdle)
    ensures k.cpu.Idle? && k.ready == [] ==>
              forall t | t in k.threads && !k.threads[t].mode.Finishing? ::
                exists s | s in k.sems :: t in k.sems[s].queue && k.sems[s].value == 0
  {
    ReachableInv(k);
    hide Reachable;
    if k.cpu.Running? {
      assert ThreadInv(k, k.cpu.t);
    }
    if k.cpu.Idle? && k.ready == [] {
      forall t | t in k.threads && !k.threads[t].mode.Finishing?
        ensures exists s | s in k.sems :: t in k.sems[s].queue && k.sems[s].value == 0
      {
        AsleepOnZero(k, t);
      }
    }
  }

  lemma AsleepOnZero(k: State, t: Tid)
    requires Inv(k) && k.cpu.Idle? && k.ready == [] && t in k.threads && !k.threads[t].mode.Finishing?
    ensures exists s | s in k.sems :: t in k.sems[s].queue && k.sems[s].value == 0
  {
    assert ThreadInv(k, t);
    assert t !in ReadyThreads(k);
    var s := k.threads[t].mode.sem;
    assert t in InMode(k, Waiting(s));
    assert SemInv(k.sems[s], InMode(k, Waiting(s)), InMode(k, Woken(s)));
    NobodyWoken(k, s);
  }

  lemma NobodyWoken(k: State, s: Sid)
    requires Inv(k) && k.cpu.Idle? && k.ready == []
    ensures InMode(k, Woken(s)) == {}
  {
    forall t | t in k.threads ensures k.threads[t].mode != Woken(s) {
      assert ThreadInv(k, t);
      assert t !in ReadyThreads(k);
    }
  }

  // --------------------------------------------------------- finished threads

  /** On entry to Scheduler::Run no deletion is outstanding, so its ASSERT holds. */
  lemma NothingToDestroyOnEntryToRun(k: State, e: Event)
    requires Inv(k) && Enabled(k, e) && Dispatches(k, e)
    ensures k.toBeDestroyed.Some? ==> e.Resume? && Step(k, e).toBeDestroyed.None?
    ensures Step(k, e).toBeDestroyed.Some? ==> Step(k, e).toBeDestroyed == Some(k.cpu.t) && (e.Finish? || e.WakeIdle?)
  {
  }

  /** The thread switched to deletes the finished one at once, is not that thread,
      and nothing else can happen first. */
  lemma FinishedThreadIsDeleted(k: State, e: Event)
    requires Inv(k) && Enabled(k, e) && k.toBeDestroyed.Some?
    ensures var d := k.toBeDestroyed.value;
            && e == Resume && d != k.cpu.t
            && Step(k, e).destroyed == k.destroyed + [d]
            && d !in Step(k, e).threads
            && Step(k, e).toBeDestroyed.None?
  {
    ReadyHead(k);
    assert ThreadInv(k, k.toBeDestroyed.value);
    StepKeepsInv(k, e);
  }

  /** No thread is deleted twice, and none disappears without being deleted. */
  lemma {:induction false} DeletedOnce(k: State, es: seq<Event>)
    requires Inv(k) && ValidRun(k, es)
    ensures var k' := Exec(k, es);
            && k.destroyed <= k'.destroyed && NoDup(k'.destroyed)
            && k.threads.Keys - k'.threads.Keys <= Elems(k'.destroyed)
            && Elems(k'.destroyed) !! k'.threads.Keys
    decreases |es|
  {
    hide Step, Inv, Enabled;
    if es == [] {
      GraveFacts(k);
    } else {
      StepKeepsInv(k, es[0]);
      DeletedOnce(Step(k, es[0]), es[1..]);
      DeletionStep(k, es[0]);
      PrefixElems(Step(k, es[0]).destroyed, Exec(k, es).destroyed);
    }
  }

  lemma PrefixElems(a: seq<Tid>, b: seq<Tid>)
    requires a <= b
    ensures Elems(a) <= Elems(b)
  {
  }

  lemma GraveFacts(k: State)
    requires Inv(k)
    ensures GraveInv(k)
  {
  }

  lemma DeletionStep(k: State, e: Event)
    requires Inv(k) && Enabled(k, e)
    ensures var k' := Step(k, e);
            k.destroyed <= k'.destroyed && k.threads.Keys - k'.threads.Keys <= Elems(k'.destroyed)
  {
    hide Step, Inv;
    if k.toBeDestroyed.Some? {
      FinishedThreadIsDeleted(k, e);
      ResumeEffect(k);
      assert Phases(Step(k, e)).Keys == Step(k, e).threads.Keys && Phases(k).Keys == k.threads.Keys;
      AppendElems(k.destroyed, k.toBeDestroyed.value);
    } else {
      NoDeletion(k, e);
    }
  }

  lemma NoDeletion(k: State, e: Event)
    requires Inv(k) && Enabled(k, e) && k.toBeDestroyed.None?
    ensures Step(k, e).destroyed == k.destroyed && k.threads.Keys <= Step(k, e).threads.Keys
  {
    hide SemsInv, ThreadsInv, ReadyInv, GraveInv;
  }
}
