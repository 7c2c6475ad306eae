/** SynchDisk: ReadSector and WriteSector, which hand one sector at a time to the disk. */
module SynchDisk {
  import opened Options
  import opened Kernel
  import R = Requests

  type Bytes = seq<bv8>

  datatype Op = Read(sector: nat) | Write(sector: nat, data: Bytes)

  datatype Entry = Fetched(sector: nat, data: Bytes) | Stored(sector: nat, data: Bytes)

  datatype Store = Store(
    sectors: seq<Bytes>,
    initial: seq<Bytes>,     // history: contents at the start
    log: seq<Entry>)         // history: transfers in order

  datatype System = System(r: R.System<Op>, store: Store)

  predicate Enabled(y: System, e: R.Event<Op>) {
    R.Enabled(y.r, e) && (e.Start? ==> e.op.sector < |y.store.sectors|)
  }

  /** Disk::ReadRequest and WriteRequest: the transfer happens at once. */
  function Transfer(d: Store, op: Op): Store
    requires op.sector < |d.sectors|
  {
    match op
    case Read(s) => d.(log := d.log + [Fetched(s, d.sectors[s])])
    case Write(s, data) => d.(sectors := d.sectors[s := data], log := d.log + [Stored(s, data)])
  }

  /** The last data written to a sector. */
  function Latest(initial: seq<Bytes>, log: seq<Entry>, s: nat): Bytes
    requires s < |initial|
  {
    if log == [] then initial[s]
    else match log[|log| - 1]
      case Stored(r, data) => if r == s then data else Latest(initial, log[..|log| - 1], s)
      case Fetched(_, _) => Latest(initial, log[..|log| - 1], s)
  }

  ghost predicate StoreInv(d: Store) {
    && |d.sectors| == |d.initial|
    && (forall s | 0 <= s < |d.sectors| :: d.sectors[s] == Latest(d.initial, d.log, s))
    && (forall i | 0 <= i < |d.log| && d.log[i].Fetched? ::
          d.log[i].sector < |d.initial| && d.log[i].data == Latest(d.initial, d.log[..i], d.log[i].sector))
  }

  /** A transfer is the one the request asked for. */
  predicate Answers(entry: Entry, op: Op) {
    match op
    case Read(s) => entry.Fetched? && entry.sector == s
    case Write(s, data) => entry == Stored(s, data)
  }

  ghost predicate LogInv(d: R.Device<Op>, store: Store) {
    && |store.log| == |d.log| && (forall i | 0 <= i < |d.log| :: Answers(store.log[i], d.log[i].op))
    && (forall t | t in d.jobs :: d.jobs[t].op.sector < |store.sectors|)
  }

  ghost predicate Inv(y: System) {
    R.Inv(y.r) && LogInv(y.r.d, y.store) && StoreInv(y.store)
  }

  lemma {:induction false} LatestAfter(initial: seq<Bytes>, log: seq<Entry>, entry: Entry, s: nat)
    requires s < |initial|
    ensures Latest(initial, log + [entry], s) ==
            if entry.Stored? && entry.sector == s then entry.data else Latest(initial, log, s)
  {
    assert (log + [entry])[..|log|] == log;
  }

  lemma StoreKept(d: Store, op: Op)
    requires StoreInv(d) && op.sector < |d.sectors|
    ensures StoreInv(Transfer(d, op))
  {
    var d' := Transfer(d, op);
    var entry := d'.log[|d.log|];
    forall s | 0 <= s < |d'.sectors| ensures d'.sectors[s] == Latest(d'.initial, d'.log, s) {
      LatestAfter(d.initial, d.log, entry, s);
    }
    forall i | 0 <= i < |d'.log| && d'.log[i].Fetched?
      ensures d'.log[i].sector < |d'.initial| && d'.log[i].data == Latest(d'.initial, d'.log[..i], d'.log[i].sector) {
      assert d'.log[..i] == d.log[..i];
      assert i == |d.log| ==> d.log[..i] == d.log;
    }
  }

  ghost function Step(y: System, e: R.Event<Op>): System
    requires Inv(y) && Enabled(y, e)
  {
    R.AlwaysReady(y.r, e);
    System(R.Step(y.r, e), if e.Issue? then Transfer(y.store, y.r.d.jobs[y.r.st.k.cpu.t].op) else y.store)
  }

  lemma LogKept(d: R.Device<Op>, t: Tid, store: Store, e: R.Event<Op>)
    requires R.Ready(d, t, e) && LogInv(d, store) && (e.Start? ==> e.op.sector < |store.sectors|)
    ensures LogInv(R.DeviceStep(d, t, e), if e.Issue? then Transfer(store, d.jobs[t].op) else store)
  {
  }

  /** Every event preserves the invariant. */
  lemma StepKeepsInv(y: System, e: R.Event<Op>)
    requires Inv(y) && Enabled(y, e)
    ensures Inv(Step(y, e))
  {
    hide R.Inv, R.Enabled, LogInv, StoreInv;
    R.AlwaysReady(y.r, e);
    R.StepKeepsInv(y.r, e);
    LogKept(y.r.d, y.r.st.k.cpu.t, y.store, e);
    if e.Issue? {
      JobSector(y.r.d, y.store, y.r.st.k.cpu.t);
      StoreKept(y.store, y.r.d.jobs[y.r.st.k.cpu.t].op);
    }
  }

  lemma JobSector(d: R.Device<Op>, store: Store, t: Tid)
    requires LogInv(d, store) && t in d.jobs
    ensures d.jobs[t].op.sector < |store.sectors|
  {
  }

  // --------------------------------------------------------------- whole runs

  /** A SynchDisk just constructed. */
  ghost predicate Initial(y: System) {
    R.Initial(y.r) && y.store == Store(y.store.sectors, y.store.sectors, [])
  }

  lemma InitialInv(y: System)
    requires Initial(y)
    ensures Inv(y)
  {
    hide R.Inv, R.Initial;
    R.InitialInv(y.r);
  }

  ghost predicate ValidRun(y: System, es: seq<R.Event<Op>>)
    requires Inv(y)
    decreases |es|
  {
    es == [] || (Enabled(y, es[0]) && (StepKeepsInv(y, es[0]); ValidRun(Step(y, es[0]), es[1..])))
  }

  ghost function Exec(y: System, es: seq<R.Event<Op>>): System
    requires Inv(y) && ValidRun(y, es)
    decreases |es|
  {
    if es == [] then y else StepKeepsInv(y, es[0]); Exec(Step(y, es[0]), es[1..])
  }

  ghost predicate Reachable(y: System) {
    exists y0, es | Initial(y0) && Inv(y0) && ValidRun(y0, es) :: Exec(y0, es) == y
  }

  lemma {:induction false} ExecKeepsInv(y: System, es: seq<R.Event<Op>>)
    requires Inv(y) && ValidRun(y, es)
    ensures Inv(Exec(y, es))
    decreases |es|
  {
    hide Inv, Step, Enabled;
    if es != [] {
      StepKeepsInv(y, es[0]);
      ExecKeepsInv(Step(y, es[0]), es[1..]);
    }
  }

  lemma ReachableInv(y: System)
    requires Reachable(y)
    ensures Inv(y)
  {
    var y0, es :| Initial(y0) && Inv(y0) && ValidRun(y0, es) && Exec(y0, es) == y;
    ExecKeepsInv(y0, es);
  }

  /** In every reachable state of any number of threads, the active flag plus the
      semaphore's value is the number of threads between issuing a request and finishing
      P, which is at most one; a disk interrupt is pending exactly while the disk is active;
      and a thread leaves P only after its own request, the last one made, has completed. */
  lemma OneRequestAtATime(y: System)
    requires Reachable(y)
    ensures y.r.done in y.r.st.k.sems
    ensures var d, v := y.r.d, ViewOf(y.r.st.k, y.r.done);
            && (if d.active then 1 else 0) + v.value == |R.Outstanding(v, d)| <= 1
            && d.pending == (if d.active then 1 else 0)
            && forall t | t in d.jobs && d.jobs[t].Done? ::
                 && !d.active && v.value == 0 && d.completed == |d.log| > 0
                 && d.log[|d.log| - 1] == R.Request(t, d.jobs[t].op)
  {
    ReachableInv(y);
    hide R.Inv, Reachable, LogInv, StoreInv;
    R.OneAtATime(y.r);
  }

  /** The disk behind its lock is an atomic sector store: transfers are made in the order in
      which their callers got the lock, and every read returns the last data written to that
      sector by an earlier one, or the initial data. */
  lemma ReadsReturnLatestWrite(y: System, i: nat)
    requires Reachable(y) && i < |y.r.d.log|
    ensures i < |y.store.log| && Answers(y.store.log[i], y.r.d.log[i].op)
    ensures y.store.log[i].Fetched? ==>
              && y.store.log[i].sector < |y.store.initial|
              && y.store.log[i].data == Latest(y.store.initial, y.store.log[..i], y.store.log[i].sector)
  {
    ReachableInv(y);
    hide R.Inv, Reachable;
  }

  /** Disk::ReadRequest and WriteRequest are never called while the disk is active. */
  lemma RequestNeverMeetsActiveDisk(y: System)
    requires Reachable(y) && Enabled(y, R.Issue)
    ensures !y.r.d.active && y.r.d.pending == 0
  {
    ReachableInv(y);
    R.NeverBusy(y.r);
  }
}
