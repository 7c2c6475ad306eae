/** Locks and Mesa-style condition variables, built from kernel semaphores.

    One lock and one condition variable are followed through the code of Lock and
    Condition.  A step is the code between two points where the thread can lose the
    CPU; every step is one or two kernel events, so a monitor run is a kernel run.
    Threads may use other semaphores as they like. */
module Monitor {
  import opened Options
  import opened Kernel

  /** Where a thread is in Lock and Condition code. */
  datatype Pc =
    | Acquiring            // in semaphore->P() of Acquire, or past it with lockHolder not yet set
    | Inside               // lockHolder is this thread
    | Sleeping(w: Sid)     // in Wait, between Release and the return of waiter->P()

  datatype Mon = Mon(
    lock: Sid,                  // the lock's semaphore
    holder: Option<Tid>,        // lockHolder
    waitQueue: seq<Sid>,        // the condition's queue of private semaphores
    pc: map<Tid, Pc>,           // threads not listed are outside the monitor
    waiters: map<Sid, Tid>,     // history: every private semaphore and who allocated it
    signalled: seq<Sid>)        // history: the private semaphores signalled, in order

  datatype State = State(k: Kernel.State, m: Mon)

  datatype Event =
    | Acquire                   // Lock::Acquire, entering P
    | Enter                     // Lock::Acquire, after P: lockHolder = currentThread
    | Release                   // Lock::Release
    | Wait(w: Sid)              // Condition::Wait, through the end of Release
    | Sleep                     // Condition::Wait, entering waiter->P()
    | Reacquire                 // Condition::Wait, back from waiter->P(), entering Acquire
    | Signal                    // Condition::Signal; Broadcast repeats it
    | Other(e: Kernel.Event)    // anything that leaves this lock and condition alone

  predicate Own(m: Mon, s: Sid) {
    s == m.lock || s in m.waiters
  }

  predicate At(m: Mon, t: Tid, pc: Pc) {
    t in m.pc && m.pc[t] == pc
  }

  predicate Enabled(st: State, e: Event) {
    var State(k, m) := st;
    var t := k.cpu.t;
    match e
    case Acquire => RunningFree(k) && t !in m.pc && m.lock in k.sems
    case Enter => Kernel.Enabled(k, Return) && k.threads[t].mode == Passed(m.lock) && At(m, t, Acquiring)
    case Release => RunningFree(k) && m.holder == Some(t) && m.lock in k.sems
    case Wait(w) => RunningFree(k) && m.holder == Some(t) && m.lock in k.sems && w !in k.sems
    case Sleep => RunningFree(k) && t in m.pc && m.pc[t].Sleeping? && m.pc[t].w in k.sems
    case Reacquire =>
      && Kernel.Enabled(k, Return) && t in m.pc && m.pc[t].Sleeping? && m.lock in k.sems
      && k.threads[t].mode == Passed(m.pc[t].w)
    case Signal => RunningFree(k) && m.holder == Some(t) && (m.waitQueue != [] ==> m.waitQueue[0] in k.sems)
    case Other(e) =>
      && Kernel.Enabled(k, e)
      && match e
         case Down(s) => !Own(m, s) && (t !in m.pc || m.pc[t].Inside?)
         case Up(s) => !Own(m, s) && (t !in m.pc || m.pc[t].Inside?)
         case HandlerUp(s) => !Own(m, s)
         case Return => !Own(m, k.threads[t].mode.sem)
         case Finish => t !in m.pc
         case Fork(u) => u !in m.pc
         case _ => true
  }

  /** What each event does to the kernel ... */
  ghost function KernelStep(st: State, e: Event): Kernel.State
    requires Kernel.Inv(st.k) && Enabled(st, e)
  {
    var State(k, m) := st;
    match e
    case Acquire => Kernel.Step(k, Down(m.lock))
    case Enter => Kernel.Step(k, Return)
    case Release => Kernel.Step(k, Up(m.lock))
    case Wait(w) =>
      Kernel.StepKeepsInv(k, NewSemaphore(w, 0)); StillRunning(k, NewSemaphore(w, 0));
      Kernel.Step(Kernel.Step(k, NewSemaphore(w, 0)), Up(m.lock))
    case Sleep => Kernel.Step(k, Down(m.pc[k.cpu.t].w))
    case Reacquire =>
      Kernel.StepKeepsInv(k, Return); StillRunning(k, Return);
      Kernel.Step(Kernel.Step(k, Return), Down(m.lock))
    case Signal => if m.waitQueue == [] then k else Kernel.Step(k, Up(m.waitQueue[0]))
    case Other(e) => Kernel.Step(k, e)
  }

  /** ... and to the lock and condition, when thread t performs it. */
  function MonStep(m: Mon, t: Tid, e: Event): Mon {
    match e
    case Acquire => m.(pc := m.pc[t := Acquiring])
    case Enter => m.(pc := m.pc[t := Inside], holder := Some(t))
    case Release => m.(pc := m.pc - {t}, holder := None)
    case Wait(w) =>
      m.(pc := m.pc[t := Sleeping(w)], holder := None,
         waitQueue := m.waitQueue + [w], waiters := m.waiters[w := t])
    case Sleep => m
    case Reacquire => m.(pc := m.pc[t := Acquiring])
    case Signal =>
      if m.waitQueue == [] then m
      else m.(waitQueue := m.waitQueue[1..], signalled := m.signalled + [m.waitQueue[0]])
    case Other(_) => m
  }

  ghost function Step(st: State, e: Event): State
    requires Kernel.Inv(st.k) && Enabled(st, e)
  {
    State.State(KernelStep(st, e), MonStep(st.m, st.k.cpu.t, e))
  }

  // ------------------------------------------------------------ the invariant

  /** The threads between completing P in Acquire and completing V in Release. */
  ghost function Insiders(ps: map<Tid, Phase>, m: Mon): set<Tid> {
    set t | t in ps && (ps[t] == Past(m.lock) || At(m, t, Inside))
  }

  /** The lock: its value and the threads inside add up to one. */
  ghost predicate LockInv(ps: map<Tid, Phase>, vs: map<Sid, int>, m: Mon) {
    && m.lock in vs && vs[m.lock] + |Insiders(ps, m)| == 1
    && m.lock !in m.waiters
    && (match m.holder case None => true case Some(t) => At(m, t, Inside))
  }

  ghost predicate PcInv(ps: map<Tid, Phase>, m: Mon, t: Tid) {
    && (t in m.pc ==>
          && t in ps
          && match m.pc[t]
             case Acquiring => ps[t] == In(m.lock) || ps[t] == Past(m.lock)
             case Inside => m.holder == Some(t) && !ps[t].Dying?
             case Sleeping(w) => w in m.waiters && m.waiters[w] == t && (ps[t] == Calm || ps[t] == In(w) || ps[t] == Past(w)))
    && (t in ps && (ps[t].In? || ps[t].Past?) ==>
          && (ps[t].sem == m.lock ==> At(m, t, Acquiring))
          && (ps[t].sem in m.waiters ==> At(m, t, Sleeping(ps[t].sem))))
  }

  /** A private semaphore: unsignalled while queued; once signalled, the signal stays
      in its value until its owner's P takes it, whenever that P happens. */
  ghost predicate WaiterInv(ps: map<Tid, Phase>, vs: map<Sid, int>, m: Mon, w: Sid)
    requires w in m.waiters
  {
    && w in vs
    && if At(m, m.waiters[w], Sleeping(w)) then
         && m.waiters[w] in ps
         && if w in m.waitQueue then
              vs[w] == 0 && ps[m.waiters[w]] != Past(w) && w !in m.signalled
            else
              w in m.signalled && vs[w] == (if ps[m.waiters[w]] == Past(w) then 0 else 1)
       else
         w !in m.waitQueue && vs[w] == 0 && w in m.signalled
  }

  ghost predicate QueueInv(m: Mon) {
    && NoDup(m.waitQueue) && NoDup(m.signalled)
    && (forall w | w in m.waitQueue || w in m.signalled :: w in m.waiters)
  }

  ghost predicate Shape(ps: map<Tid, Phase>, vs: map<Sid, int>, m: Mon) {
    && LockInv(ps, vs, m)
    && (forall t :: PcInv(ps, m, t))
    && (forall w | w in m.waiters :: WaiterInv(ps, vs, m, w))
    && QueueInv(m)
  }

  ghost predicate Inv(st: State) {
    Kernel.Inv(st.k) && Shape(Phases(st.k), Values(st.k), st.m)
  }

  // ------------------------------------------- every event preserves the shape

  /** Completing a P, on whichever semaphore. */
  lemma CompleteKeepsShape(ps: map<Tid, Phase>, vs: map<Sid, int>, m: Mon, t: Tid, s: Sid)
    requires Shape(ps, vs, m) && t in ps && ps[t] == In(s) && s in vs && vs[s] > 0
    ensures Shape(ps[t := Past(s)], vs[s := vs[s] - 1], m)
  {
    hide LockInv, PcInv, WaiterInv, QueueInv;
    var ps' := ps[t := Past(s)];
    var vs' := vs[s := vs[s] - 1];
    assert PcInv(ps, m, t);
    CompleteKeepsLock(ps, vs, m, t, s);
    forall u ensures PcInv(ps', m, u) {
      assert PcInv(ps, m, u);
      CompleteKeepsPc(ps, m, t, s, u);
    }
    forall w | w in m.waiters ensures WaiterInv(ps', vs', m, w) {
      assert WaiterInv(ps, vs, m, w);
      CompleteKeepsWaiter(ps, vs, m, t, s, w);
    }
  }

  lemma CompleteKeepsLock(ps: map<Tid, Phase>, vs: map<Sid, int>, m: Mon, t: Tid, s: Sid)
    requires LockInv(ps, vs, m) && PcInv(ps, m, t) && t in ps && ps[t] == In(s) && s in vs && vs[s] > 0
    ensures LockInv(ps[t := Past(s)], vs[s := vs[s] - 1], m)
  {
    var ps' := ps[t := Past(s)];
    assert Insiders(ps', m) == if s == m.lock then Insiders(ps, m) + {t} else Insiders(ps, m);
  }

  lemma CompleteKeepsPc(ps: map<Tid, Phase>, m: Mon, t: Tid, s: Sid, u: Tid)
    requires PcInv(ps, m, u) && t in ps && ps[t] == In(s)
    ensures PcInv(ps[t := Past(s)], m, u)
  {
  }

  lemma CompleteKeepsWaiter(ps: map<Tid, Phase>, vs: map<Sid, int>, m: Mon, t: Tid, s: Sid, w: Sid)
    requires w in m.waiters && WaiterInv(ps, vs, m, w) && PcInv(ps, m, t)
    requires t in ps && ps[t] == In(s) && s in vs && vs[s] > 0
    ensures WaiterInv(ps[t := Past(s)], vs[s := vs[s] - 1], m, w)
  {
  }

  /** A thread outside the monitor's code changing its phase on foreign business. */
  lemma ForeignKeepsShape(ps: map<Tid, Phase>, vs: map<Sid, int>, m: Mon, t: Tid, p: Phase)
    requires Shape(ps, vs, m)
    requires t in ps ==> ps[t] != Past(m.lock) && (ps[t] == In(m.lock) ==> false)
    requires p != Past(m.lock) && p != In(m.lock)
    requires p.In? || p.Past? ==> p.sem !in m.waiters
    requires t in m.pc ==> m.pc[t].Inside? && !p.Dying?
    requires t !in ps ==> t !in m.pc
    ensures Shape(ps[t := p], vs, m)
  {
    var ps' := ps[t := p];
    assert PcInv(ps, m, t);
    assert Insiders(ps', m) == Insiders(ps, m);
    forall u ensures PcInv(ps', m, u) { assert PcInv(ps, m, u); }
    forall w | w in m.waiters ensures WaiterInv(ps', vs, m, w) { assert WaiterInv(ps, vs, m, w); }
  }

  lemma ForeignValueKeepsShape(ps: map<Tid, Phase>, vs: map<Sid, int>, m: Mon, s: Sid, v: int)
    requires Shape(ps, vs, m) && !Own(m, s)
    ensures Shape(ps, vs[s := v], m)
  {
    var vs' := vs[s := v];
    forall w | w in m.waiters ensures WaiterInv(ps, vs', m, w) { assert WaiterInv(ps, vs, m, w); }
  }

  lemma RemoveKeepsShape(ps: map<Tid, Phase>, vs: map<Sid, int>, m: Mon, dead: set<Tid>)
    requires Shape(ps, vs, m) && forall d | d in dead :: d in ps && ps[d] == Dying
    ensures Shape(ps - dead, vs, m)
  {
    var ps' := ps - dead;
    forall d | d in dead ensures d !in m.pc { assert PcInv(ps, m, d); }
    assert Insiders(ps', m) == Insiders(ps, m);
    forall u ensures PcInv(ps', m, u) { assert PcInv(ps, m, u); }
    forall w | w in m.waiters ensures WaiterInv(ps', vs, m, w) { assert WaiterInv(ps, vs, m, w); }
  }

  lemma AcquireKeepsShape(ps: map<Tid, Phase>, vs: map<Sid, int>, m: Mon, t: Tid)
    requires Shape(ps, vs, m) && t in ps && ps[t] == Calm && t !in m.pc
    ensures Shape(ps[t := In(m.lock)], vs, m.(pc := m.pc[t := Acquiring]))
  {
    var ps' := ps[t := In(m.lock)];
    var m' := m.(pc := m.pc[t := Acquiring]);
    assert Insiders(ps', m') == Insiders(ps, m);
    forall u ensures PcInv(ps', m', u) { assert PcInv(ps, m, u); }
    forall w | w in m.waiters ensures WaiterInv(ps', vs, m', w) { assert WaiterInv(ps, vs, m, w); }
  }

  /** When t is inside, nobody else is, so nobody else can be recorded as the holder. */
  lemma OnlyInsider(ps: map<Tid, Phase>, vs: map<Sid, int>, m: Mon, t: Tid)
    requires Shape(ps, vs, m) && vs[m.lock] >= 0 && t in Insiders(ps, m)
    ensures Insiders(ps, m) == {t} && vs[m.lock] == 0
    ensures forall u: Tid | At(m, u, Inside) :: u == t
  {
    var rest := Insiders(ps, m) - {t};
    assert |Insiders(ps, m)| == |rest| + 1;
    assert rest == {};
    forall u: Tid | At(m, u, Inside) ensures u == t {
      assert PcInv(ps, m, u);
      assert u in Insiders(ps, m);
    }
  }

  lemma EnterKeepsShape(ps: map<Tid, Phase>, vs: map<Sid, int>, m: Mon, t: Tid)
    requires Shape(ps, vs, m) && vs[m.lock] >= 0 && t in ps && ps[t] == Past(m.lock) && At(m, t, Acquiring)
    ensures Shape(ps[t := Calm], vs, m.(pc := m.pc[t := Inside], holder := Some(t)))
  {
    var ps' := ps[t := Calm];
    var m' := m.(pc := m.pc[t := Inside], holder := Some(t));
    OnlyInsider(ps, vs, m, t);
    assert Insiders(ps', m') == Insiders(ps, m);
    forall u ensures PcInv(ps', m', u) { assert PcInv(ps, m, u); }
    forall w | w in m.waiters ensures WaiterInv(ps', vs, m', w) { assert WaiterInv(ps, vs, m, w); }
  }

  lemma LeaveEmpties(ps: map<Tid, Phase>, vs: map<Sid, int>, m: Mon, m': Mon, t: Tid)
    requires Shape(ps, vs, m) && vs[m.lock] >= 0 && At(m, t, Inside) && t in ps && ps[t] == Calm
    requires m'.lock == m.lock && !At(m', t, Inside) && forall u: Tid | u != t :: At(m', u, Inside) ==> At(m, u, Inside)
    ensures Insiders(ps, m) == {t} && vs[m.lock] == 0 && Insiders(ps, m') == {}
    ensures forall u: Tid | At(m, u, Inside) :: u == t
  {
    assert Insiders(ps, m') <= Insiders(ps, m) - {t} by {
      forall u | u in Insiders(ps, m') && u != t ensures u in Insiders(ps, m) {}
    }
    OnlyInsider(ps, vs, m, t);
  }

  lemma ReleaseKeepsShape(ps: map<Tid, Phase>, vs: map<Sid, int>, m: Mon, t: Tid)
    requires Shape(ps, vs, m) && vs[m.lock] >= 0 && m.holder == Some(t) && t in ps && ps[t] == Calm
    ensures Shape(ps, vs[m.lock := vs[m.lock] + 1], m.(pc := m.pc - {t}, holder := None))
  {
    var vs' := vs[m.lock := vs[m.lock] + 1];
    var m' := m.(pc := m.pc - {t}, holder := None);
    LeaveEmpties(ps, vs, m, m', t);
    forall u ensures PcInv(ps, m', u) { assert PcInv(ps, m, u); }
    forall w | w in m.waiters ensures WaiterInv(ps, vs', m', w) { assert WaiterInv(ps, vs, m, w); }
  }

  lemma WaitKeepsShape(ps: map<Tid, Phase>, vs: map<Sid, int>, m: Mon, t: Tid, w: Sid)
    requires Shape(ps, vs, m) && vs[m.lock] >= 0 && m.holder == Some(t) && t in ps && ps[t] == Calm && w !in vs
    requires forall u | u in ps && (ps[u].In? || ps[u].Past?) :: ps[u].sem in vs
    ensures Shape(ps, vs[w := 0][m.lock := vs[m.lock] + 1],
                  m.(pc := m.pc[t := Sleeping(w)], holder := None,
                     waitQueue := m.waitQueue + [w], waiters := m.waiters[w := t]))
  {
    var vs' := vs[w := 0][m.lock := vs[m.lock] + 1];
    var m' := m.(pc := m.pc[t := Sleeping(w)], holder := None,
                 waitQueue := m.waitQueue + [w], waiters := m.waiters[w := t]);
    LeaveEmpties(ps, vs, m, m', t);
    forall x | x in m.waiters ensures x in vs && x != w { assert WaiterInv(ps, vs, m, x); }
    assert forall x :: x in m'.waitQueue <==> x in m.waitQueue || x == w;
    forall u ensures PcInv(ps, m', u) { assert PcInv(ps, m, u); }
    forall x | x in m'.waiters ensures WaiterInv(ps, vs', m', x) {
      if x != w { assert WaiterInv(ps, vs, m, x); }
    }
  }

  lemma SleepKeepsShape(ps: map<Tid, Phase>, vs: map<Sid, int>, m: Mon, t: Tid, w: Sid)
    requires Shape(ps, vs, m) && t in ps && ps[t] == Calm && At(m, t, Sleeping(w))
    ensures Shape(ps[t := In(w)], vs, m)
  {
    var ps' := ps[t := In(w)];
    assert PcInv(ps, m, t);
    assert Insiders(ps', m) == Insiders(ps, m);
    forall u ensures PcInv(ps', m, u) { assert PcInv(ps, m, u); }
    forall x | x in m.waiters ensures WaiterInv(ps', vs, m, x) { assert WaiterInv(ps, vs, m, x); }
  }

  lemma ReacquireKeepsShape(ps: map<Tid, Phase>, vs: map<Sid, int>, m: Mon, t: Tid, w: Sid)
    requires Shape(ps, vs, m) && t in ps && ps[t] == Past(w) && At(m, t, Sleeping(w))
    ensures Shape(ps[t := In(m.lock)], vs, m.(pc := m.pc[t := Acquiring]))
  {
    var ps' := ps[t := In(m.lock)];
    var m' := m.(pc := m.pc[t := Acquiring]);
    assert PcInv(ps, m, t);
    assert WaiterInv(ps, vs, m, w);
    assert Insiders(ps', m') == Insiders(ps, m);
    forall u ensures PcInv(ps', m', u) { assert PcInv(ps, m, u); }
    forall x | x in m.waiters ensures WaiterInv(ps', vs, m', x) { assert WaiterInv(ps, vs, m, x); }
  }

  lemma SignalKeepsShape(ps: map<Tid, Phase>, vs: map<Sid, int>, m: Mon)
    requires Shape(ps, vs, m) && m.waitQueue != []
    ensures m.waitQueue[0] in m.waiters && m.waitQueue[0] in vs && vs[m.waitQueue[0]] == 0
    ensures var w := m.waitQueue[0];
            Shape(ps, vs[w := vs[w] + 1], m.(waitQueue := m.waitQueue[1..], signalled := m.signalled + [w]))
  {
    var w := m.waitQueue[0];
    assert w in m.waitQueue;
    assert WaiterInv(ps, vs, m, w);
    var vs' := vs[w := vs[w] + 1];
    var m' := m.(waitQueue := m.waitQueue[1..], signalled := m.signalled + [w]);
    PopElems(m.waitQueue);
    AppendElems(m.signalled, w);
    forall x ensures (x in m'.signalled <==> x in m.signalled || x == w) && (x in m'.waitQueue <==> x in m.waitQueue && x != w) {
      assert x in m'.signalled <==> x in Elems(m'.signalled);
      assert x in m'.waitQueue <==> x in Elems(m'.waitQueue);
    }
    forall u ensures PcInv(ps, m', u) { assert PcInv(ps, m, u); }
    forall x | x in m.waiters ensures WaiterInv(ps, vs', m', x) { assert WaiterInv(ps, vs, m, x); }
    assert Insiders(ps, m') == Insiders(ps, m);
  }

  /** A P on any semaphore, from a state in which the caller has just entered it. */
  lemma DownKeepsShape(k: Kernel.State, s: Sid, m: Mon)
    requires Kernel.Inv(k) && Kernel.Enabled(k, Down(s))
    requires Shape(Phases(k)[k.cpu.t := In(s)], Values(k), m)
    ensures var k' := Kernel.Step(k, Down(s)); Shape(Phases(k'), Values(k'), m)
  {
    hide Shape, Kernel.Step, Kernel.Inv;
    DownEffect(k, s);
    var ps := Phases(k)[k.cpu.t := In(s)];
    if k.sems[s].value > 0 {
      CompleteKeepsShape(ps, Values(k), m, k.cpu.t, s);
      assert ps[k.cpu.t := Past(s)] == Phases(k)[k.cpu.t := Past(s)];
    }
  }

  lemma OwnStepKeepsShape(st: State, e: Event)
    requires Inv(st) && Enabled(st, e) && !e.Other?
    ensures var st' := Step(st, e); Shape(Phases(st'.k), Values(st'.k), st'.m)
  {
    hide Shape, Kernel.Step, Kernel.Inv;
    var State(k, m) := st;
    var ps, vs, t := Phases(k), Values(k), k.cpu.t;
    ObservedFacts(k);
    LockListed(st);
    match e
    case Acquire =>
      AcquireKeepsShape(ps, vs, m, t);
      DownKeepsShape(k, m.lock, MonStep(m, t, e));
    case Enter =>
      EnterKeepsShape(ps, vs, m, t);
      QuietEffect(k, Return);
    case Release =>
      ReleaseKeepsShape(ps, vs, m, t);
      UpEffect(k, Up(m.lock));
    case Wait(w) =>
      WaitKeepsShape(ps, vs, m, t, w);
      QuietEffect(k, NewSemaphore(w, 0));
      Kernel.StepKeepsInv(k, NewSemaphore(w, 0));
      StillRunning(k, NewSemaphore(w, 0));
      var k1 := Kernel.Step(k, NewSemaphore(w, 0));
      UpEffect(k1, Up(m.lock));
      assert Values(k1)[m.lock] == vs[m.lock];
    case Sleep =>
      SleepKeepsShape(ps, vs, m, t, m.pc[t].w);
      DownKeepsShape(k, m.pc[t].w, m);
    case Reacquire =>
      ReacquireKeepsShape(ps, vs, m, t, m.pc[t].w);
      QuietEffect(k, Return);
      Kernel.StepKeepsInv(k, Return);
      StillRunning(k, Return);
      var k1 := Kernel.Step(k, Return);
      assert Phases(k1)[t := In(m.lock)] == ps[t := In(m.lock)];
      DownKeepsShape(k1, m.lock, MonStep(m, t, e));
    case Signal =>
      if m.waitQueue != [] {
        SignalKeepsShape(ps, vs, m);
        UpEffect(k, Up(m.waitQueue[0]));
      }
  }

  lemma LockListed(st: State)
    requires Inv(st)
    ensures st.m.lock in Values(st.k)
  {
  }

  ghost predicate ShapeAfter(k: Kernel.State, e: Kernel.Event, m: Mon)
    requires Kernel.Inv(k) && Kernel.Enabled(k, e)
  {
    var k' := Kernel.Step(k, e);
    Shape(Phases(k'), Values(k'), m)
  }

  lemma OtherStepKeepsShape(st: State, e: Kernel.Event)
    requires Inv(st) && Enabled(st, Other(e))
    ensures ShapeAfter(st.k, e, st.m)
  {
    hide Kernel.Step, Kernel.Inv;
    var State(k, m) := st;
    var ps, vs, t := Phases(k), Values(k), k.cpu.t;
    assert PcInv(ps, m, t);
    OwnInValues(ps, vs, m);
    ObservedFacts(k);
    hide Shape;
    match e
    case Down(s) =>
      ForeignKeepsShape(ps, vs, m, t, In(s));
      DownKeepsShape(k, s, m);
    case Up(s) => UpEffect(k, e); ForeignValueKeepsShape(ps, vs, m, s, vs[s] + 1);
    case HandlerUp(s) => UpEffect(k, e); ForeignValueKeepsShape(ps, vs, m, s, vs[s] + 1);
    case Return => QuietEffect(k, e); ForeignKeepsShape(ps, vs, m, t, Calm);
    case Fork(u) => QuietEffect(k, e); ForeignKeepsShape(ps, vs, m, u, Calm);
    case Finish => QuietEffect(k, e); ForeignKeepsShape(ps, vs, m, t, Dying);
    case NewSemaphore(s, i) => QuietEffect(k, e); ForeignValueKeepsShape(ps, vs, m, s, i);
    case Resume => ResumeKeepsShape(k, m);
    case _ => QuietEffect(k, e);
  }

  lemma ResumeKeepsShape(k: Kernel.State, m: Mon)
    requires Kernel.Inv(k) && k.cpu.Resuming? && Shape(Phases(k), Values(k), m)
    ensures ShapeAfter(k, Resume, m)
  {
    hide Kernel.Step, Kernel.Inv, Shape;
    var ps, vs := Phases(k), Values(k);
    ResumeEffect(k);
    RemoveKeepsShape(ps, vs, m, Dead(k));
    if Completing(k).Some? {
      CompleteKeepsShape(ps - Dead(k), vs, m, k.cpu.t, Completing(k).value);
    }
  }

  lemma OwnInValues(ps: map<Tid, Phase>, vs: map<Sid, int>, m: Mon)
    requires Shape(ps, vs, m)
    ensures m.lock in vs && forall w | w in m.waiters :: w in vs
  {
    forall w | w in m.waiters ensures w in vs { assert WaiterInv(ps, vs, m, w); }
  }

  /** A monitor event is one or two kernel events, so the kernel's invariant is kept. */
  lemma KernelStepKeepsInv(st: State, e: Event)
    requires Kernel.Inv(st.k) && Enabled(st, e)
    ensures Kernel.Inv(KernelStep(st, e))
  {
    hide Kernel.Inv, Kernel.Step;
    var State(k, m) := st;
    match e
    case Acquire => Kernel.StepKeepsInv(k, Down(m.lock));
    case Enter => Kernel.StepKeepsInv(k, Return);
    case Release => Kernel.StepKeepsInv(k, Up(m.lock));
    case Wait(w) =>
      Kernel.StepKeepsInv(k, NewSemaphore(w, 0)); StillRunning(k, NewSemaphore(w, 0));
      Kernel.StepKeepsInv(Kernel.Step(k, NewSemaphore(w, 0)), Up(m.lock));
    case Sleep => Kernel.StepKeepsInv(k, Down(m.pc[k.cpu.t].w));
    case Reacquire =>
      Kernel.StepKeepsInv(k, Return); StillRunning(k, Return);
      Kernel.StepKeepsInv(Kernel.Step(k, Return), Down(m.lock));
    case Signal => if m.waitQueue != [] { Kernel.StepKeepsInv(k, Up(m.waitQueue[0])); }
    case Other(e) => Kernel.StepKeepsInv(k, e);
  }

  /** Every event of any thread preserves the monitor invariant. */
  lemma StepKeepsInv(st: State, e: Event)
    requires Inv(st) && Enabled(st, e)
    ensures Inv(Step(st, e))
  {
    hide Shape, Kernel.Inv, Kernel.Step;
    KernelStepKeepsInv(st, e);
    match e
    case Other(ke) => OtherStepKeepsShape(st, ke);
    case _ => OwnStepKeepsShape(st, e);
  }

  lemma OtherStep(st: State, e: Kernel.Event)
    requires Kernel.Inv(st.k) && Enabled(st, Other(e))
    ensures Kernel.Enabled(st.k, e) && Step(st, Other(e)) == State.State(Kernel.Step(st.k, e), st.m)
  {
    hide Kernel.Inv, Kernel.Step;
  }

  /** Whoever is inside is the recorded holder; a thread about to enter finds nobody inside. */
  lemma HolderFacts(st: State)
    requires Inv(st)
    ensures forall t: Tid | At(st.m, t, Inside) :: st.m.holder == Some(t)
    ensures st.m.holder.Some? ==> At(st.m, st.m.holder.value, Inside)
    ensures Enabled(st, Enter) ==> forall t: Tid :: !At(st.m, t, Inside)
  {
    var ps, vs, m := Phases(st.k), Values(st.k), st.m;
    ObservedFacts(st.k);
    hide Kernel.Inv;
    forall t: Tid | At(m, t, Inside) ensures m.holder == Some(t) { assert PcInv(ps, m, t); }
    if Enabled(st, Enter) {
      var t := st.k.cpu.t;
      assert t in Insiders(ps, m);
      OnlyInsider(ps, vs, m, t);
    }
  }

  /** The lock's and the condition's own events do not touch any other semaphore. */
  lemma ForeignView(st: State, e: Event, s: Sid)
    requires Inv(st) && Enabled(st, e) && !e.Other? && s in st.k.sems && !Own(st.m, s)
    ensures s in KernelStep(st, e).sems && ViewOf(KernelStep(st, e), s) == ViewOf(st.k, s)
    ensures !Own(MonStep(st.m, st.k.cpu.t, e), s)
  {
    hide Kernel.Inv, Kernel.Step, ViewOf;
    var State(k, m) := st;
    var t := k.cpu.t;
    assert PcInv(Phases(k), m, t);
    if m.waitQueue != [] { assert m.waitQueue[0] in m.waitQueue; }
    hide Shape;
    match e
    case Acquire => ViewFrame(k, Down(m.lock), s);
    case Enter => ViewFrame(k, Return, s);
    case Release => ViewFrame(k, Up(m.lock), s);
    case Wait(w) =>
      Kernel.StepKeepsInv(k, NewSemaphore(w, 0)); StillRunning(k, NewSemaphore(w, 0));
      ViewFrame(k, NewSemaphore(w, 0), s);
      ViewFrame(Kernel.Step(k, NewSemaphore(w, 0)), Up(m.lock), s);
    case Sleep => ViewFrame(k, Down(m.pc[t].w), s);
    case Reacquire =>
      Kernel.StepKeepsInv(k, Return); StillRunning(k, Return);
      ViewFrame(k, Return, s);
      ViewFrame(Kernel.Step(k, Return), Down(m.lock), s);
    case Signal => if m.waitQueue != [] { ViewFrame(k, Up(m.waitQueue[0]), s); }
  }

  // --------------------------------------------------------------- whole runs

  /** A lock and a condition just constructed over a fresh semaphore of value 1. */
  ghost predicate Initial(st: State) {
    && Kernel.Inv(st.k) && st.m.lock in st.k.sems && st.k.sems[st.m.lock].value == 1
    && (forall t | t in st.k.threads :: PhaseOf(st.k.threads[t].mode) !in {In(st.m.lock), Past(st.m.lock)})
    && st.m == Mon(st.m.lock, None, [], map[], map[], [])
  }

  lemma InitialInv(st: State)
    requires Initial(st)
    ensures Inv(st)
  {
    assert Insiders(Phases(st.k), st.m) == {};
  }

  ghost predicate ValidRun(st: State, es: seq<Event>)
    requires Inv(st)
    decreases |es|
  {
    es == [] || (Enabled(st, es[0]) && (StepKeepsInv(st, es[0]); ValidRun(Step(st, es[0]), es[1..])))
  }

  ghost function Exec(st: State, es: seq<Event>): State
    requires Inv(st) && ValidRun(st, es)
    decreases |es|
  {
    if es == [] then st else StepKeepsInv(st, es[0]); Exec(Step(st, es[0]), es[1..])
  }

  ghost predicate Reachable(st: State) {
    exists st0, es | Initial(st0) && Inv(st0) && ValidRun(st0, es) :: Exec(st0, es) == st
  }

  lemma {:induction false} ExecKeepsInv(st: State, es: seq<Event>)
    requires Inv(st) && ValidRun(st, es)
    ensures Inv(Exec(st, es))
    decreases |es|
  {
    hide Shape, Kernel.Inv, Step, Enabled;
    if es != [] {
      StepKeepsInv(st, es[0]);
      ExecKeepsInv(Step(st, es[0]), es[1..]);
    }
  }

  lemma ReachableInv(st: State)
    requires Reachable(st)
    ensures Inv(st)
  {
    var st0, es :| Initial(st0) && Inv(st0) && ValidRun(st0, es) && Exec(st0, es) == st;
    ExecKeepsInv(st0, es);
  }

  /** With any number of threads, on any interleaving: the lock's value plus the number
      of threads between the end of P in Acquire and the end of V in Release is one, and
      lockHolder is null or the only thread in the critical section. */
  lemma MutualExclusion(st: State)
    requires Reachable(st)
    ensures var ps := Phases(st.k);
            && st.m.lock in st.k.sems
            && st.k.sems[st.m.lock].value + |Insiders(ps, st.m)| == 1
            && st.k.sems[st.m.lock].value >= 0
            && (forall t: Tid :: At(st.m, t, Inside) <==> st.m.holder == Some(t))
            && (forall t, u | t in Insiders(ps, st.m) && u in Insiders(ps, st.m) :: t == u)
  {
    hide Reachable;
    ReachableInv(st);
    var ps, vs := Phases(st.k), Values(st.k);
    ObservedFacts(st.k);
    hide Kernel.Inv;
    forall t: Tid ensures At(st.m, t, Inside) <==> st.m.holder == Some(t) { assert PcInv(ps, st.m, t); }
    forall t, u | t in Insiders(ps, st.m) && u in Insiders(ps, st.m) ensures t == u {
      OnlyInsider(ps, vs, st.m, t);
    }
  }

  /** Lock::Release, Wait and Signal assert that the caller holds the lock; a thread
      inside always passes those assertions. */
  lemma InsideMeansHolder(st: State, t: Tid)
    requires Reachable(st) && At(st.m, t, Inside)
    ensures st.m.holder == Some(t) && t in st.k.threads
  {
    ReachableInv(st);
    assert PcInv(Phases(st.k), st.m, t);
  }

  lemma WaiterFacts(st: State, w: Sid)
    requires Reachable(st) && w in st.m.waiters
    ensures WaiterInv(Phases(st.k), Values(st.k), st.m, w) && NoDup(st.m.signalled)
    ensures forall t :: PcInv(Phases(st.k), st.m, t)
  {
    ReachableInv(st);
    hide Reachable, Kernel.Inv;
  }

  lemma SleeperListed(st: State, t: Tid, w: Sid)
    requires Reachable(st) && At(st.m, t, Sleeping(w))
    ensures w in st.m.waiters && st.m.waiters[w] == t && t in st.k.threads
  {
    ReachableInv(st);
    hide Reachable, Kernel.Inv;
    assert PcInv(Phases(st.k), st.m, t);
  }

  /** A signal sent to a thread that is in Wait is kept, even if it lands after Wait has
      released the lock and before it calls P: that P will find the value 1. */
  lemma SignalIsKept(st: State, t: Tid, w: Sid)
    requires Reachable(st) && At(st.m, t, Sleeping(w))
    ensures w in st.m.waiters && w in st.k.sems && t in st.k.threads
    ensures w in st.m.signalled <==> w !in st.m.waitQueue
    ensures st.k.sems[w].value ==
            if w in st.m.signalled && st.k.threads[t].mode != Passed(w) then 1 else 0
  {
    hide Reachable;
    SleeperListed(st, t, w);
    WaiterFacts(st, w);
  }

  /** A private semaphore is V'd at most once over a whole run, and once its owner is
      out of Wait's P it is unreachable with value 0, so deleting it is safe. */
  lemma SignalledAtMostOnce(st: State, w: Sid)
    requires Reachable(st) && w in st.m.waiters
    ensures multiset(st.m.signalled)[w] <= 1
    ensures !At(st.m, st.m.waiters[w], Sleeping(w)) ==>
              && multiset(st.m.signalled)[w] == 1 && w !in st.m.waitQueue
              && w in st.k.sems && st.k.sems[w].value == 0
              && (forall t | t in st.k.threads :: PhaseOf(st.k.threads[t].mode) !in {In(w), Past(w)})
  {
    hide Reachable;
    WaiterFacts(st, w);
    if w in st.m.signalled { NoDupCount(st.m.signalled, w); }
    forall t | t in st.k.threads && PhaseOf(st.k.threads[t].mode) in {In(w), Past(w)}
      ensures At(st.m, st.m.waiters[w], Sleeping(w)) {
      assert PcInv(Phases(st.k), st.m, t);
    }
  }

  function Signals(es: seq<Event>): nat {
    if es == [] then 0 else (if es[0].Signal? then 1 else 0) + Signals(es[1..])
  }

  function Left(length: nat, taken: nat): nat {
    if taken < length then length - taken else 0
  }

  /** The private semaphores of the calls of Wait in a run, in order. */
  function Waits(es: seq<Event>): seq<Sid> {
    if es == [] then [] else (if es[0].Wait? then [es[0].w] else []) + Waits(es[1..])
  }

  lemma QueueAfterStep(st: State, e: Event)
    requires Kernel.Inv(st.k) && Enabled(st, e)
    ensures var m, m' := st.m, Step(st, e).m;
            && m'.signalled + m'.waitQueue == m.signalled + m.waitQueue + (if e.Wait? then [e.w] else [])
            && (!e.Wait? ==> |m'.waitQueue| == Left(|m.waitQueue|, if e.Signal? then 1 else 0))
            && m.signalled <= m'.signalled && |m'.signalled| <= |m.signalled| + 1
  {
    hide KernelStep;
  }

  /** Over any run, those signalled and those still waiting are, in order, those signalled and
      waiting at first and then those that have called Wait since: signals serve waiters in the
      order in which they began to wait. */
  lemma {:induction false} ConditionIsFifo(st: State, es: seq<Event>)
    requires Inv(st) && ValidRun(st, es)
    ensures var m, m' := st.m, Exec(st, es).m;
            && m'.signalled + m'.waitQueue == m.signalled + m.waitQueue + Waits(es)
            && m.signalled <= m'.signalled
    decreases |es|
  {
    hide Shape, Kernel.Inv, Step, Enabled;
    if es == [] {
      assert st.m.signalled + st.m.waitQueue + [] == st.m.signalled + st.m.waitQueue;
    } else {
      StepKeepsInv(st, es[0]);
      QueueAfterStep(st, es[0]);
      ConditionIsFifo(Step(st, es[0]), es[1..]);
      var q, now := st.m.signalled + st.m.waitQueue, if es[0].Wait? then [es[0].w] else [];
      assert (q + now) + Waits(es[1..]) == q + (now + Waits(es[1..]));
    }
  }

  /** Condition::Broadcast, which signals until the queue is empty: as long as nobody new
      waits, n signals serve the first n waiters in order, whatever else is interleaved. */
  lemma {:induction false} BroadcastServesInOrder(st: State, es: seq<Event>)
    requires Inv(st) && ValidRun(st, es) && forall e | e in es :: !e.Wait?
    ensures var m, m' := st.m, Exec(st, es).m;
            && m'.signalled + m'.waitQueue == m.signalled + m.waitQueue
            && |m'.waitQueue| == Left(|m.waitQueue|, Signals(es))
    decreases |es|
  {
    hide Shape, Kernel.Inv, Step, Enabled;
    if es != [] {
      StepKeepsInv(st, es[0]);
      assert es[0] in es;
      QueueAfterStep(st, es[0]);
      BroadcastServesInOrder(Step(st, es[0]), es[1..]);
    }
  }

  // ------------------------------------------------------------------ progress

  /** In every reachable state a thread that has the CPU in the code of the lock or the condition
      can take the next step of that code. */
  lemma CanGoOn(st: State)
    requires Reachable(st) && st.k.cpu.Running?
    ensures var t, m := st.k.cpu.t, st.m;
            && t in st.k.threads
            && (t !in m.pc && RunningFree(st.k) ==> Enabled(st, Acquire))
            && (t in m.pc ==>
                  match m.pc[t]
                  case Acquiring => Enabled(st, Enter)
                  case Inside => RunningFree(st.k) ==> Enabled(st, Release) && Enabled(st, Signal) && forall w: Sid | w !in st.k.sems :: Enabled(st, Wait(w))
                  case Sleeping(w) => if RunningFree(st.k) then Enabled(st, Event.Sleep) else Enabled(st, Reacquire))
  {
    hide Reachable, Inv, Enabled, RunningFree;
    ReachableInv(st);
    RunningOn(st);
    if RunningFree(st.k) {
      FreeSteps(st);
    } else {
      PassedSteps(st);
    }
  }

  lemma RunningOn(st: State)
    requires Inv(st) && st.k.cpu.Running?
    ensures st.k.cpu.t in st.k.threads
  {
  }

  lemma PcFacts(st: State, t: Tid)
    requires Inv(st)
    ensures PcInv(Phases(st.k), st.m, t)
  {
  }

  /** The next steps by the kind of step the thread has behind it. */
  lemma FreeSteps(st: State)
    requires Inv(st) && RunningFree(st.k)
    ensures var t, m := st.k.cpu.t, st.m;
            && (t !in m.pc ==> Enabled(st, Acquire))
            && (t in m.pc ==>
                  match m.pc[t]
                  case Acquiring => false
                  case Inside => Enabled(st, Release) && Enabled(st, Signal) && forall w: Sid | w !in st.k.sems :: Enabled(st, Wait(w))
                  case Sleeping(w) => Enabled(st, Event.Sleep))
  {
    hide Kernel.Inv, Shape;
    RunningModes(st.k);
    PcFacts(st, st.k.cpu.t);
    QueuedListed(st);
    LockExists(st);
  }

  lemma PassedSteps(st: State)
    requires Inv(st) && st.k.cpu.Running? && !RunningFree(st.k)
    ensures var t, m := st.k.cpu.t, st.m;
            && t in st.k.threads
            && (t in m.pc && m.pc[t].Acquiring? ==> Enabled(st, Enter))
            && (t in m.pc && m.pc[t].Sleeping? ==> Enabled(st, Reacquire))
  {
    hide Kernel.Inv, Shape;
    RunningModes(st.k);
    PcFacts(st, st.k.cpu.t);
    LockExists(st);
  }

  lemma RunningModes(k: Kernel.State)
    requires Kernel.Inv(k) && k.cpu.Running?
    ensures k.cpu.t in k.threads && (k.threads[k.cpu.t].mode.Free? || k.threads[k.cpu.t].mode.Passed?)
  {
    assert ThreadInv(k, k.cpu.t);
  }

  lemma LockExists(st: State)
    requires Inv(st)
    ensures st.m.lock in st.k.sems
    ensures forall w | w in st.m.waiters :: w in st.k.sems
  {
    hide Kernel.Inv;
    forall w | w in st.m.waiters ensures w in st.k.sems {
      assert WaiterInv(Phases(st.k), Values(st.k), st.m, w);
    }
  }

  lemma QueuedListed(st: State)
    requires Inv(st)
    ensures st.m.waitQueue != [] ==> st.m.waitQueue[0] in st.k.sems
  {
    hide Kernel.Inv;
    if st.m.waitQueue != [] {
      assert st.m.waitQueue[0] in st.m.waiters;
      LockExists(st);
    }
  }
}
