/** An asynchronous device made synchronous by a lock and a semaphore.

    Any number of threads make requests, each under the lock.  The device accepts one
    request at a time and completes it by an interrupt, whose handler Vs `done`; the thread
    waits for that with P.  SynchDisk and PostOfficeOutput both work this way. */
module Requests {
  import opened Options
  import opened Kernel
  import opened M = Monitor

  datatype Job<Op> =
    | Want(op: Op)      // acquiring the lock
    | Issued(op: Op)    // request made; calling or inside semaphore->P()
    | Done(op: Op)      // back from P, about to release the lock

  datatype Request<Op> = Request(who: Tid, op: Op)

  datatype Device<Op> = Device(
    active: bool,               // a request is in progress
    pending: nat,               // its interrupts scheduled and not yet delivered
    jobs: map<Tid, Job<Op>>,
    log: seq<Request<Op>>,      // history: requests in the order in which they got the lock
    completed: nat)             // history: interrupts delivered

  datatype System<Op> = System(st: M.State, done: Sid, d: Device<Op>)

  datatype Event<Op> =
    | Start(op: Op)              // lock->Acquire()
    | Issue                      // the lock is ours; the request is made
    | Await                      // semaphore->P()
    | Back                       // P has returned
    | Finish                     // lock->Release()
    | Interrupt                  // the device's CallBack, then its caller's
    | Background(e: Kernel.Event)

  function MonitorEvent<Op>(done: Sid, e: Event<Op>): M.Event {
    match e
    case Start(_) => Acquire
    case Issue => Enter
    case Await => Other(Down(done))
    case Back => Other(Return)
    case Finish => Release
    case Interrupt => Other(HandlerUp(done))
    case Background(e) => Other(e)
  }

  predicate Enabled<Op>(y: System<Op>, e: Event<Op>) {
    var t := y.st.k.cpu.t;
    && M.Enabled(y.st, MonitorEvent(y.done, e))
    && match e
       case Start(_) => true
       case Issue => t in y.d.jobs && y.d.jobs[t].Want?
       case Await => t in y.d.jobs && y.d.jobs[t].Issued?
       case Back => t in y.d.jobs && y.d.jobs[t].Issued? && y.st.k.threads[t].mode == Passed(y.done)
       case Finish => t in y.d.jobs && y.d.jobs[t].Done?
       case Interrupt => y.d.pending > 0
       case Background(e) => !Touches(y.st.k, e, y.done)
  }

  /** What the device asserts when a request is made: none is in progress. */
  predicate Ready<Op>(d: Device<Op>, t: Tid, e: Event<Op>) {
    match e
    case Issue => t in d.jobs && d.jobs[t].Want? && !d.active
    case Back => t in d.jobs
    case Interrupt => d.pending > 0
    case _ => true
  }

  function DeviceStep<Op>(d: Device<Op>, t: Tid, e: Event<Op>): Device<Op>
    requires Ready(d, t, e)
  {
    match e
    case Start(op) => d.(jobs := d.jobs[t := Want(op)])
    case Issue =>
      var op := d.jobs[t].op;
      d.(active := true, pending := d.pending + 1, jobs := d.jobs[t := Issued(op)], log := d.log + [Request(t, op)])
    case Back => d.(jobs := d.jobs[t := Done(d.jobs[t].op)])
    case Finish => d.(jobs := d.jobs - {t})
    case Interrupt => d.(active := false, pending := d.pending - 1, completed := d.completed + 1)
    case _ => d
  }

  // ------------------------------------------------------------ the invariant

  /** Threads that have issued a request and not finished P. */
  ghost function Outstanding<Op>(v: View, d: Device<Op>): set<Tid> {
    set t | t in d.jobs && d.jobs[t].Issued? && t !in v.past
  }

  ghost predicate JobInv<Op>(m: Mon, d: Device<Op>, t: Tid) {
    && (t in m.pc <==> t in d.jobs)
    && (t in m.pc ==> if d.jobs[t].Want? then m.pc[t].Acquiring? else m.pc[t].Inside?)
    && (t in d.jobs && !d.jobs[t].Want? ==> d.log != [] && d.log[|d.log| - 1] == Request(t, d.jobs[t].op))
  }

  ghost predicate ProtocolInv<Op>(v: View, d: Device<Op>) {
    && (forall t | t in v.entering || t in v.past :: t in d.jobs && d.jobs[t].Issued?)
    && v.value >= 0
    && (if d.active then 1 else 0) + v.value == |Outstanding(v, d)|
    && d.pending == (if d.active then 1 else 0)
    && d.completed + d.pending == |d.log|
  }

  ghost predicate Inv<Op>(y: System<Op>) {
    && M.Inv(y.st)
    && y.done in y.st.k.sems && !Own(y.st.m, y.done)
    && (forall t :: JobInv(y.st.m, y.d, t))
    && ProtocolInv(ViewOf(y.st.k, y.done), y.d)
  }

  // ------------------------------------------------- every event preserves it

  lemma JobsKept<Op>(m: Mon, d: Device<Op>, t: Tid, e: Event<Op>, done: Sid)
    requires Ready(d, t, e) && (forall u :: JobInv(m, d, u))
    requires e.Start? ==> t !in m.pc
    requires e.Issue? ==> At(m, t, Acquiring) && forall u: Tid :: !At(m, u, Inside)
    requires e.Await? || e.Back? || e.Finish? ==> t in d.jobs && !d.jobs[t].Want?
    ensures var m', d' := MonStep(m, t, MonitorEvent(done, e)), DeviceStep(d, t, e); forall u :: JobInv(m', d', u)
  {
    var m', d' := MonStep(m, t, MonitorEvent(done, e)), DeviceStep(d, t, e);
    forall u ensures JobInv(m', d', u) {
      assert JobInv(m, d, u) && JobInv(m, d, t);
      if e.Issue? {
        assert !At(m, u, Inside);
      }
    }
  }

  lemma QuietProtocol<Op>(v: View, d: Device<Op>, d': Device<Op>)
    requires ProtocolInv(v, d) && d'.active == d.active && d'.pending == d.pending && d'.completed == d.completed && d'.log == d.log
    requires forall t :: (t in d.jobs && d.jobs[t].Issued?) <==> (t in d'.jobs && d'.jobs[t].Issued?)
    ensures ProtocolInv(v, d')
  {
    assert Outstanding(v, d') == Outstanding(v, d);
  }

  lemma IssueProtocol<Op>(v: View, d: Device<Op>, t: Tid)
    requires ProtocolInv(v, d) && t in d.jobs && d.jobs[t].Want?
    requires forall u | u in d.jobs :: !d.jobs[u].Issued?
    ensures !d.active && v.value == 0 && Ready(d, t, Issue) && ProtocolInv(v, DeviceStep(d, t, Issue))
  {
    assert Outstanding(v, d) == {};
    var d' := DeviceStep(d, t, Issue);
    assert t !in v.past;
    assert Outstanding(v, d') == {t};
  }

  /** P on `done` completes for thread t, at once or after a wake-up. */
  lemma PassProtocol<Op>(v: View, d: Device<Op>, t: Tid)
    requires ProtocolInv(v, d) && v.value > 0 && t in d.jobs && d.jobs[t].Issued? && t !in v.past
    ensures ProtocolInv(View(v.value - 1, v.entering - {t}, v.past + {t}), d)
  {
    var v' := View(v.value - 1, v.entering - {t}, v.past + {t});
    assert t in Outstanding(v, d);
    assert Outstanding(v', d) == Outstanding(v, d) - {t};
  }

  lemma BackProtocol<Op>(v: View, d: Device<Op>, t: Tid)
    requires ProtocolInv(v, d) && t in d.jobs && t in v.past && t !in v.entering
    ensures ProtocolInv(v.(past := v.past - {t}), DeviceStep(d, t, Back))
  {
    assert Outstanding(v.(past := v.past - {t}), DeviceStep(d, t, Back)) == Outstanding(v, d);
  }

  lemma InterruptProtocol<Op>(v: View, d: Device<Op>, t: Tid)
    requires ProtocolInv(v, d) && d.pending > 0
    ensures d.active && ProtocolInv(v.(value := v.value + 1), DeviceStep(d, t, Interrupt))
  {
    assert Outstanding(v.(value := v.value + 1), DeviceStep(d, t, Interrupt)) == Outstanding(v, d);
  }

  /** At the moment a thread issues its request no other request is outstanding. */
  lemma IssueFindsDeviceIdle<Op>(y: System<Op>)
    requires Inv(y) && Enabled(y, Issue)
    ensures Ready(y.d, y.st.k.cpu.t, Issue)
    ensures ProtocolInv(ViewOf(y.st.k, y.done), DeviceStep(y.d, y.st.k.cpu.t, Issue))
  {
    var m, d, t := y.st.m, y.d, y.st.k.cpu.t;
    HolderFacts(y.st);
    hide M.Inv;
    forall u | u in d.jobs ensures !d.jobs[u].Issued? {
      assert JobInv(m, d, u);
      assert !At(m, u, Inside);
    }
    assert JobInv(m, d, t);
    IssueProtocol(ViewOf(y.st.k, y.done), d, t);
  }

  lemma AlwaysReady<Op>(y: System<Op>, e: Event<Op>)
    requires Inv(y) && Enabled(y, e)
    ensures Ready(y.d, y.st.k.cpu.t, e)
  {
    if e.Issue? { IssueFindsDeviceIdle(y); }
  }

  ghost function Step<Op>(y: System<Op>, e: Event<Op>): System<Op>
    requires Inv(y) && Enabled(y, e)
  {
    AlwaysReady(y, e);
    System(M.Step(y.st, MonitorEvent(y.done, e)), y.done, DeviceStep(y.d, y.st.k.cpu.t, e))
  }

  /** Where the thread stands with respect to `done`, as the view sees it. */
  lemma ViewPlaces(k: Kernel.State, s: Sid, t: Tid)
    requires s in k.sems && t in k.threads
    ensures k.threads[t].mode.Free? ==> t !in ViewOf(k, s).entering && t !in ViewOf(k, s).past
    ensures k.threads[t].mode == Passed(s) ==> t !in ViewOf(k, s).entering && t in ViewOf(k, s).past
  {
  }

  ghost predicate ProtocolAfter<Op>(y: System<Op>, e: Event<Op>)
    requires Inv(y) && Enabled(y, e)
  {
    var y' := Step(y, e);
    y'.done in y'.st.k.sems && !Own(y'.st.m, y.done) && ProtocolInv(ViewOf(y'.st.k, y.done), y'.d)
  }

  lemma LockEventProtocol<Op>(y: System<Op>, e: Event<Op>)
    requires Inv(y) && Enabled(y, e) && (e.Start? || e.Issue? || e.Finish?)
    ensures ProtocolAfter(y, e)
  {
    AlwaysReady(y, e);
    hide Shape, Kernel.Inv, Kernel.Step, ViewOf, ProtocolInv, JobInv;
    ForeignView(y.st, MonitorEvent(y.done, e), y.done);
    if e.Issue? {
      IssueFindsDeviceIdle(y);
    } else {
      LockEventQuiet(y, e);
    }
  }

  lemma LockEventQuiet<Op>(y: System<Op>, e: Event<Op>)
    requires Inv(y) && Enabled(y, e) && (e.Start? || e.Finish?)
    ensures ProtocolInv(ViewOf(y.st.k, y.done), DeviceStep(y.d, y.st.k.cpu.t, e))
  {
    hide Shape, Kernel.Inv, Kernel.Step, ViewOf, ProtocolInv;
    assert JobInv(y.st.m, y.d, y.st.k.cpu.t);
    QuietProtocol(ViewOf(y.st.k, y.done), y.d, DeviceStep(y.d, y.st.k.cpu.t, e));
  }

  lemma AwaitProtocol<Op>(v: View, d: Device<Op>, t: Tid)
    requires ProtocolInv(v, d) && t in d.jobs && d.jobs[t].Issued? && t !in v.past && t !in v.entering
    ensures ProtocolInv(if v.value > 0 then View(v.value - 1, v.entering, v.past + {t})
                        else View(v.value, v.entering + {t}, v.past), d)
  {
    if v.value > 0 {
      PassProtocol(v, d, t);
      assert v.entering - {t} == v.entering;
    } else {
      assert Outstanding(v.(entering := v.entering + {t}), d) == Outstanding(v, d);
    }
  }

  lemma DoneEventProtocol<Op>(y: System<Op>, e: Event<Op>)
    requires Inv(y) && Enabled(y, e) && (e.Await? || e.Back? || e.Interrupt?)
    ensures ProtocolAfter(y, e)
  {
    hide Shape, Kernel.Inv, Kernel.Step, ViewOf, ProtocolInv, DeviceStep, JobInv, M.Step;
    match e
    case Await =>
      OtherStep(y.st, Down(y.done));
      ViewPlaces(y.st.k, y.done, y.st.k.cpu.t);
      ViewDown(y.st.k, y.done);
      AwaitProtocol(ViewOf(y.st.k, y.done), y.d, y.st.k.cpu.t);
      AwaitStep(y.d, y.st.k.cpu.t);
    case Back => BackEventProtocol(y);
    case Interrupt => InterruptEventProtocol(y);
  }

  lemma BackEventProtocol<Op>(y: System<Op>)
    requires Inv(y) && Enabled(y, Back)
    ensures ProtocolAfter(y, Back)
  {
    hide Shape, Kernel.Inv, Kernel.Step, ViewOf, ProtocolInv, DeviceStep, JobInv, M.Step;
    OtherStep(y.st, Return);
    ViewPlaces(y.st.k, y.done, y.st.k.cpu.t);
    ViewReturn(y.st.k, y.done);
    BackProtocol(ViewOf(y.st.k, y.done), y.d, y.st.k.cpu.t);
  }

  lemma InterruptEventProtocol<Op>(y: System<Op>)
    requires Inv(y) && Enabled(y, Interrupt)
    ensures ProtocolAfter(y, Interrupt)
  {
    hide Shape, Kernel.Inv, Kernel.Step, ViewOf, ProtocolInv, DeviceStep, JobInv, M.Step;
    OtherStep(y.st, HandlerUp(y.done));
    ViewUp(y.st.k, HandlerUp(y.done));
    InterruptProtocol(ViewOf(y.st.k, y.done), y.d, y.st.k.cpu.t);
  }

  lemma AwaitStep<Op>(d: Device<Op>, t: Tid)
    ensures DeviceStep(d, t, Await) == d
  {
  }

  /** A background event moves the kernel only. */
  lemma BackgroundIs<Op>(y: System<Op>, ke: Kernel.Event)
    requires Inv(y) && Enabled(y, Background(ke))
    ensures Kernel.Inv(y.st.k) && Kernel.Enabled(y.st.k, ke) && !Touches(y.st.k, ke, y.done)
    ensures Step(y, Background(ke)) == System(M.State.State(Kernel.Step(y.st.k, ke), y.st.m), y.done, y.d)
  {
    hide Shape, Kernel.Inv, Kernel.Step, ProtocolInv, JobInv, M.Step, Touches;
    OtherStep(y.st, ke);
  }

  lemma ProtocolFacts<Op>(y: System<Op>)
    requires Inv(y)
    ensures y.done in y.st.k.sems && !Own(y.st.m, y.done) && ProtocolInv(ViewOf(y.st.k, y.done), y.d)
    ensures y.st.k.cpu.t in y.st.k.threads
  {
  }

  lemma BackgroundProtocol<Op>(y: System<Op>, ke: Kernel.Event)
    requires Inv(y) && Enabled(y, Background(ke))
    ensures ProtocolAfter(y, Background(ke))
  {
    hide Inv, Enabled, Step, Kernel.Inv, Kernel.Step, ViewOf, ProtocolInv, Touches, Completing;
    ProtocolFacts(y);
    BackgroundIs(y, ke);
    var k, d, t, v := y.st.k, y.d, y.st.k.cpu.t, ViewOf(y.st.k, y.done);
    ViewFrame(k, ke, y.done);
    if ke.Resume? && Completing(k) == Some(y.done) {
      EnteringNotPast(k, y.done, t);
      EnteringIssued(v, d, t);
      PassProtocol(v, d, t);
    }
  }

  lemma ProtocolKept<Op>(y: System<Op>, e: Event<Op>)
    requires Inv(y) && Enabled(y, e)
    ensures ProtocolAfter(y, e)
  {
    hide ProtocolAfter, Inv;
    match e
    case Start(_) => LockEventProtocol(y, e);
    case Issue => LockEventProtocol(y, e);
    case Finish => LockEventProtocol(y, e);
    case Background(ke) => BackgroundProtocol(y, ke);
    case _ => DoneEventProtocol(y, e);
  }

  lemma EnteringIssued<Op>(v: View, d: Device<Op>, t: Tid)
    requires ProtocolInv(v, d) && t in v.entering
    ensures t in d.jobs && d.jobs[t].Issued?
  {
  }

  lemma EnteringNotPast(k: Kernel.State, s: Sid, t: Tid)
    requires s in k.sems && t in ViewOf(k, s).entering
    ensures t !in ViewOf(k, s).past
  {
  }

  lemma JobsKeptBy<Op>(y: System<Op>, e: Event<Op>)
    requires Inv(y) && Enabled(y, e)
    ensures var y' := Step(y, e); forall t :: JobInv(y'.st.m, y'.d, t)
  {
    AlwaysReady(y, e);
    HolderFacts(y.st);
    hide Shape, Kernel.Inv, Kernel.Step, ProtocolInv, M.KernelStep;
    JobsKept(y.st.m, y.d, y.st.k.cpu.t, e, y.done);
  }

  /** Every event preserves the invariant; in particular Disk's ASSERT(!active) holds. */
  lemma StepKeepsInv<Op>(y: System<Op>, e: Event<Op>)
    requires Inv(y) && Enabled(y, e)
    ensures Inv(Step(y, e))
  {
    hide Shape, Kernel.Inv, M.KernelStep, M.Enabled, MonStep, ProtocolInv, JobInv, DeviceStep;
    M.StepKeepsInv(y.st, MonitorEvent(y.done, e));
    ProtocolKept(y, e);
    JobsKeptBy(y, e);
  }

  // --------------------------------------------------------------- what it gives

  /** A fresh lock, a fresh semaphore of value 0, an idle device. */
  ghost predicate Initial<Op>(y: System<Op>) {
    && M.Initial(y.st)
    && y.done in y.st.k.sems && y.done != y.st.m.lock && ViewOf(y.st.k, y.done) == View(0, {}, {})
    && y.d == Device(false, 0, map[], [], 0)
  }

  lemma InitialInv<Op>(y: System<Op>)
    requires Initial(y)
    ensures Inv(y) && y.d.jobs == map[] && y.d.log == []
  {
    M.InitialInv(y.st);
    hide M.Inv;
    assert Outstanding(ViewOf(y.st.k, y.done), y.d) == {};
  }

  /** The active flag plus the semaphore's value is the number of threads between making a
      request and finishing P, which is at most one; an interrupt is pending exactly while the
      device is active; and a thread that has left P made the last request, and that and all
      earlier ones have completed. */
  lemma OneAtATime<Op>(y: System<Op>)
    requires Inv(y)
    ensures y.done in y.st.k.sems
    ensures var v := ViewOf(y.st.k, y.done);
            && (if y.d.active then 1 else 0) + v.value == |Outstanding(v, y.d)| <= 1
            && y.d.pending == (if y.d.active then 1 else 0)
            && forall t | t in y.d.jobs && y.d.jobs[t].Done? ::
                 && !y.d.active && v.value == 0 && y.d.completed == |y.d.log| > 0
                 && y.d.log[|y.d.log| - 1] == Request(t, y.d.jobs[t].op)
  {
    HolderFacts(y.st);
    hide M.Inv, ViewOf, ProtocolInv;
    AtMostOneOutstanding(ViewOf(y.st.k, y.done), y.st.m, y.d);
  }

  lemma AtMostOneOutstanding<Op>(v: View, m: Mon, d: Device<Op>)
    requires ProtocolInv(v, d) && (forall t :: JobInv(m, d, t))
    requires forall t: Tid | At(m, t, Inside) :: m.holder == Some(t)
    ensures (if d.active then 1 else 0) + v.value == |Outstanding(v, d)| <= 1
    ensures d.pending == (if d.active then 1 else 0)
    ensures forall t | t in d.jobs && d.jobs[t].Done? ::
              && !d.active && v.value == 0 && d.completed == |d.log| > 0
              && d.log[|d.log| - 1] == Request(t, d.jobs[t].op)
  {
    forall t | t in d.jobs && !d.jobs[t].Want? ensures m.holder == Some(t) {
      assert JobInv(m, d, t);
      assert At(m, t, Inside);
    }
    if m.holder.None? {
      assert Outstanding(v, d) == {};
    } else {
      SubsetOfOne(Outstanding(v, d), m.holder.value);
    }
    forall t | t in d.jobs && d.jobs[t].Done?
      ensures !d.active && v.value == 0 && d.log != [] && d.log[|d.log| - 1] == Request(t, d.jobs[t].op)
    {
      assert JobInv(m, d, t);
      assert Outstanding(v, d) <= {t} && t !in Outstanding(v, d);
      assert Outstanding(v, d) == {};
    }
  }

  lemma SubsetOfOne(s: set<Tid>, t: Tid)
    requires s <= {t}
    ensures |s| <= 1
  {
    if s != {} { assert s == {t}; }
  }

  /** A request is never made while the device is active. */
  lemma NeverBusy<Op>(y: System<Op>)
    requires Inv(y) && Enabled(y, Issue)
    ensures !y.d.active && y.d.pending == 0
  {
    IssueFindsDeviceIdle(y);
  }

  /** A thread that has the CPU in the code of a request can take the next step: having got the
      lock it makes the request, then calls P, and back from P it releases the lock.  A pending
      interrupt can be delivered whenever no switch is under way. */
  lemma CanGoOn<Op>(y: System<Op>)
    requires Inv(y)
    ensures y.d.pending > 0 && !y.st.k.cpu.Resuming? ==> Enabled(y, Interrupt)
    ensures var t, jobs := y.st.k.cpu.t, y.d.jobs;
            RunningFree(y.st.k) ==>
              && (t !in jobs ==> forall op: Op :: Enabled(y, Start(op)))
              && (t in jobs ==>
                    match jobs[t]
                    case Want(_) => false
                    case Issued(_) => Enabled(y, Await)
                    case Done(_) => Enabled(y, Event.Finish))
    ensures var t, jobs, k := y.st.k.cpu.t, y.d.jobs, y.st.k;
            k.cpu.Running? && !RunningFree(k) && t in jobs ==>
              && t in k.threads
              && (jobs[t].Want? ==> Enabled(y, Issue))
              && (jobs[t].Issued? && k.threads[t].mode == Passed(y.done) ==> Enabled(y, Back))
  {
    hide M.Inv, ProtocolInv;
    assert JobInv(y.st.m, y.d, y.st.k.cpu.t);
    if RunningFree(y.st.k) {
      FreeSteps(y.st);
    } else if y.st.k.cpu.Running? {
      PassedSteps(y.st);
    }
  }
}
