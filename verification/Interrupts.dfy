/** Simulated time and the hardware interrupts that are due in it. */
module Interrupts {
  import opened Lists

  const UserTick: nat := 1
  const SystemTick: nat := 10

  datatype Mode = IdleMode | SystemMode | UserMode

  /** An interrupt to come; id is its place in the order of scheduling. */
  datatype Pending = Pending(device: int, due: int, id: nat)

  /** An interrupt that has been delivered, when, and what the machine was doing. */
  datatype Firing = Firing(what: Pending, at: int, mode: Mode)

  function Compare(x: Pending, y: Pending): int {
    if x.due < y.due then -1 else if x.due > y.due then 1 else 0
  }

  /** Due earlier, or at the same time and scheduled earlier. */
  predicate Before(x: Pending, y: Pending) {
    x.due < y.due || (x.due == y.due && x.id < y.id)
  }

  datatype Clock = Clock(total: int, idle: int, system: int, user: int, pending: seq<Pending>, fired: seq<Firing>, scheduled: nat)

  // -------------------------------------------------------------- the invariant

  ghost predicate InOrder(q: seq<Pending>) {
    forall i, j | 0 <= i < j < |q| :: Before(q[i], q[j])
  }

  function Whats(f: seq<Firing>): (w: seq<Pending>)
    ensures |w| == |f|
  {
    seq(|f|, i requires 0 <= i < |f| => f[i].what)
  }

  /** Everything scheduled, delivered or not, in the order of delivery. */
  function History(c: Clock): seq<Pending> {
    Whats(c.fired) + c.pending
  }

  /** The most an interrupt delivered in a mode can be late, plus one. */
  function Slack(mode: Mode): nat {
    if mode == SystemMode then SystemTick else 1
  }

  ghost predicate Punctual(f: seq<Firing>) {
    forall i | 0 <= i < |f| :: 0 <= f[i].at - f[i].what.due < Slack(f[i].mode)
  }

  ghost predicate ClockInv(c: Clock) {
    && c.total == c.idle + c.system + c.user
    && InOrder(History(c))
    && Punctual(c.fired)
    && (forall i | 0 <= i < |c.fired| :: c.fired[i].what.due <= c.total)
    && (forall i | 0 <= i < |History(c)| :: History(c)[i].id < c.scheduled)
  }

  /** Nothing is due, or nothing is overdue by the slack of a mode. */
  ghost predicate Future(c: Clock) {
    forall i | 0 <= i < |c.pending| :: c.total < c.pending[i].due
  }

  ghost predicate Within(c: Clock, mode: Mode) {
    forall i | 0 <= i < |c.pending| :: c.total - c.pending[i].due < Slack(mode)
  }

  // -------------------------------------------------------------- scheduling

  function Scheduled(c: Clock, device: int, fromNow: int): Clock {
    c.(pending := Inserted(c.pending, Pending(device, c.total + fromNow, c.scheduled), Compare), scheduled := c.scheduled + 1)
  }

  lemma InsertInOrder(h: seq<Pending>, k: nat, p: Pending)
    requires InOrder(h) && k <= |h|
    requires forall j | 0 <= j < k :: Before(h[j], p)
    requires forall j | k <= j < |h| :: Before(p, h[j])
    ensures InOrder(h[..k] + [p] + h[k..])
  {
    var r := h[..k] + [p] + h[k..];
    forall a, b | 0 <= a < b < |r| ensures Before(r[a], r[b]) {
      assert r[a] == if a < k then h[a] else if a == k then p else h[a - 1];
      assert r[b] == if b < k then h[b] else if b == k then p else h[b - 1];
    }
  }

  /** A new interrupt goes behind all that are due no later, so ties stay in scheduling order. */
  lemma ScheduleKeeps(c: Clock, device: int, fromNow: int)
    requires ClockInv(c) && fromNow > 0
    ensures ClockInv(Scheduled(c, device, fromNow))
  {
    var p := Pending(device, c.total + fromNow, c.scheduled);
    var i := Place(c.pending, p, Compare);
    InsertedAt(c.pending, p, Compare, i);
    var n, h, c' := |c.fired|, History(c), Scheduled(c, device, fromNow);
    PlaceInHistory(c, p, i);
    SpliceHistory(Whats(c.fired), c.pending, i, p);
    InsertInOrder(h, n + i, p);
    IdsBelow(h, n + i, p, c.scheduled);
    hide InOrder, Inserted, Place, Before;
    assert History(c') == h[..n + i] + [p] + h[n + i..];
  }

  lemma SpliceHistory(w: seq<Pending>, q: seq<Pending>, i: nat, p: Pending)
    requires i <= |q|
    ensures w + (q[..i] + [p] + q[i..]) == (w + q)[..|w| + i] + [p] + (w + q)[|w| + i..]
  {
  }

  lemma IdsBelow(h: seq<Pending>, k: nat, p: Pending, n: nat)
    requires k <= |h| && p.id <= n && forall i | 0 <= i < |h| :: h[i].id < n
    ensures forall i | 0 <= i < |h[..k] + [p] + h[k..]| :: (h[..k] + [p] + h[k..])[i].id < n + 1
  {
  }

  lemma PlaceInHistory(c: Clock, p: Pending, i: nat)
    requires ClockInv(c) && p.due > c.total && p.id == c.scheduled
    requires i == Place(c.pending, p, Compare)
    ensures forall k | 0 <= k < |c.fired| + i :: Before(History(c)[k], p)
    ensures forall k | |c.fired| + i <= k < |History(c)| :: Before(p, History(c)[k])
  {
    hide Place;
    var n, h := |c.fired|, History(c);
    forall k | 0 <= k < n + i ensures Before(h[k], p) {
      if k >= n {
        assert h[k] == c.pending[k - n];
        assert Compare(p, c.pending[k - n]) >= 0;
      } else {
        assert h[k] == c.fired[k].what;
      }
    }
    forall k | n + i <= k < |h| ensures Before(p, h[k]) {
      assert h[n + i] == c.pending[i];
      assert k == n + i || Before(h[n + i], h[k]);
    }
  }

  lemma {:induction false} InsertedHas(s: seq<Pending>, p: Pending, x: Pending)
    requires x in Inserted(s, p, Compare)
    ensures x == p || x in s
  {
    var i := Place(s, p, Compare);
    InsertedAt(s, p, Compare, i);
  }

  lemma ScheduleKeepsDue(c: Clock, device: int, fromNow: int, mode: Mode)
    requires fromNow > 0
    ensures Future(c) ==> Future(Scheduled(c, device, fromNow))
    ensures Within(c, mode) ==> Within(Scheduled(c, device, fromNow), mode)
  {
    var c' := Scheduled(c, device, fromNow);
    hide Inserted;
    forall x | x in c'.pending ensures x in c.pending || x.due > c.total {
      InsertedHas(c.pending, Pending(device, c.total + fromNow, c.scheduled), x);
    }
    assert forall i | 0 <= i < |c'.pending| :: c'.pending[i] in c'.pending;
  }

  // -------------------------------------------------------------- delivering

  function Delivered(c: Clock, mode: Mode): Clock
    requires c.pending != []
  {
    c.(pending := c.pending[1..], fired := c.fired + [Firing(c.pending[0], c.total, mode)])
  }

  lemma DeliverKeeps(c: Clock, mode: Mode)
    requires ClockInv(c) && Within(c, mode) && c.pending != [] && c.pending[0].due <= c.total
    ensures ClockInv(Delivered(c, mode)) && Within(Delivered(c, mode), mode)
  {
    assert History(Delivered(c, mode)) == History(c);
    hide InOrder, Slack;
  }

  /** How many interrupts are due. */
  function DueCount(q: seq<Pending>, now: int): nat {
    if q == [] then 0 else (if q[0].due <= now then 1 else 0) + DueCount(q[1..], now)
  }

  lemma {:induction false} DueAfterInsert(q: seq<Pending>, p: Pending, now: int)
    requires p.due > now
    ensures DueCount(Inserted(q, p, Compare), now) == DueCount(q, now)
  {
    if q != [] && Compare(p, q[0]) >= 0 {
      DueAfterInsert(q[1..], p, now);
      assert Inserted(q, p, Compare)[1..] == Inserted(q[1..], p, Compare);
    } else {
      assert Inserted(q, p, Compare)[1..] == q;
    }
  }

  /** When the first is not due, none is. */
  lemma FirstDecides(c: Clock)
    requires ClockInv(c) && (c.pending == [] || c.pending[0].due > c.total)
    ensures Future(c)
  {
    var n, h := |c.fired|, History(c);
    forall i | 0 <= i < |c.pending| ensures c.total < c.pending[i].due {
      assert h[n] == c.pending[0] && h[n + i] == c.pending[i];
    }
  }

  // -------------------------------------------------------------- time passing

  function Ticked(c: Clock, mode: Mode): Clock {
    if mode == SystemMode then c.(total := c.total + SystemTick, system := c.system + SystemTick)
    else c.(total := c.total + UserTick, user := c.user + UserTick)
  }

  lemma TickKeeps(c: Clock, mode: Mode)
    requires ClockInv(c) && Future(c)
    ensures ClockInv(Ticked(c, mode)) && Within(Ticked(c, mode), mode)
  {
    assert History(Ticked(c, mode)) == History(c);
  }

  function Idled(c: Clock): Clock
    requires c.pending != []
  {
    c.(total := c.pending[0].due, idle := c.idle + (c.pending[0].due - c.total))
  }

  lemma IdleKeeps(c: Clock)
    requires ClockInv(c) && Future(c) && c.pending != []
    ensures ClockInv(Idled(c)) && Within(Idled(c), IdleMode)
  {
    var n, h := |c.fired|, History(c);
    assert History(Idled(c)) == h;
    forall i | 0 <= i < |c.pending| ensures c.pending[0].due <= c.pending[i].due {
      assert h[n] == c.pending[0] && h[n + i] == c.pending[i];
      assert i == 0 || Before(h[n], h[n + i]);
    }
  }

  // -------------------------------------------------------------- runs

  /** Between ticks, or delivering what has come due in a mode. */
  datatype Phase = Between | Delivering(mode: Mode)

  datatype Sim = Sim(c: Clock, phase: Phase)

  datatype Event =
    | Schedule(device: int, fromNow: int)   // by a device, or by a handler while delivering
    | Tick(mode: Mode)                      // time passes in a mode
    | Jump                                  // nothing to run: on to the next interrupt
    | Deliver                               // the first pending interrupt, which is due
    | Settle                                // nothing more is due

  predicate IsDue(c: Clock) {
    c.pending != [] && c.pending[0].due <= c.total
  }

  predicate Enabled(s: Sim, e: Event) {
    match e
    case Schedule(_, fromNow) => fromNow > 0
    case Tick(_) => s.phase.Between?
    case Jump => s.phase.Between? && s.c.pending != []
    case Deliver => s.phase.Delivering? && IsDue(s.c)
    case Settle => s.phase.Delivering? && !IsDue(s.c)
  }

  function Step(s: Sim, e: Event): Sim
    requires Enabled(s, e)
  {
    match e
    case Schedule(device, fromNow) => s.(c := Scheduled(s.c, device, fromNow))
    case Tick(mode) => Sim(Ticked(s.c, mode), Delivering(mode))
    case Jump => Sim(Idled(s.c), Delivering(IdleMode))
    case Deliver => s.(c := Delivered(s.c, s.phase.mode))
    case Settle => s.(phase := Between)
  }

  const Boot: Sim := Sim(Clock(0, 0, 0, 0, [], [], 0), Between)

  predicate ValidRun(s: Sim, es: seq<Event>)
    decreases |es|
  {
    es == [] || (Enabled(s, es[0]) && ValidRun(Step(s, es[0]), es[1..]))
  }

  function Exec(s: Sim, es: seq<Event>): Sim
    requires ValidRun(s, es)
    decreases |es|
  {
    if es == [] then s else Exec(Step(s, es[0]), es[1..])
  }

  ghost predicate SimInv(s: Sim) {
    && ClockInv(s.c)
    && match s.phase
       case Between => Future(s.c)
       case Delivering(mode) => Within(s.c, mode)
  }

  lemma BootInv()
    ensures SimInv(Boot)
  {
  }

  lemma StepKeepsInv(s: Sim, e: Event)
    requires SimInv(s) && Enabled(s, e)
    ensures SimInv(Step(s, e))
  {
    hide ClockInv, Future, Within, Ticked, Idled, Delivered, Scheduled;
    match e
    case Schedule(device, fromNow) =>
      ScheduleKeeps(s.c, device, fromNow);
      ScheduleKeepsDue(s.c, device, fromNow, if s.phase.Delivering? then s.phase.mode else IdleMode);
    case Tick(mode) => TickKeeps(s.c, mode);
    case Jump => IdleKeeps(s.c);
    case Deliver => DeliverKeeps(s.c, s.phase.mode);
    case Settle => FirstDecides(s.c);
  }

  lemma {:induction false} RunKeepsInv(s: Sim, es: seq<Event>)
    requires SimInv(s) && ValidRun(s, es)
    ensures SimInv(Exec(s, es))
    decreases |es|
  {
    hide SimInv, Step, Enabled;
    if es != [] {
      StepKeepsInv(s, es[0]);
      RunKeepsInv(Step(s, es[0]), es[1..]);
    }
  }

  // -------------------------------------------------------------- what a run shows

  /** The interrupt an event schedules, and the one it delivers, if any. */
  function NewRequest(s: Sim, e: Event): seq<Pending> {
    match e
    case Schedule(device, fromNow) => [Pending(device, s.c.total + fromNow, s.c.scheduled)]
    case _ => []
  }

  function NewDelivery(s: Sim, e: Event): seq<Firing>
    requires Enabled(s, e)
  {
    if e.Deliver? then [Firing(s.c.pending[0], s.c.total, s.phase.mode)] else []
  }

  /** The interrupts scheduled during a run, in the order of scheduling. */
  function Requested(s: Sim, es: seq<Event>): seq<Pending>
    requires ValidRun(s, es)
    decreases |es|
  {
    if es == [] then [] else NewRequest(s, es[0]) + Requested(Step(s, es[0]), es[1..])
  }

  /** The interrupts delivered during a run, in the order of delivery, each with the time of
      its delivery and the mode the machine was in. */
  function Deliveries(s: Sim, es: seq<Event>): seq<Firing>
    requires ValidRun(s, es)
    decreases |es|
  {
    if es == [] then [] else NewDelivery(s, es[0]) + Deliveries(Step(s, es[0]), es[1..])
  }

  /** The ticks of the system and of user programs during a run. */
  function Spent(es: seq<Event>, system: bool): nat {
    if es == [] then 0
    else
      (match es[0]
       case Tick(mode) =>
         if system && mode == SystemMode then SystemTick else if !system && mode != SystemMode then UserTick else 0
       case _ => 0)
      + Spent(es[1..], system)
  }

  lemma {:induction false} RunRecords(s: Sim, es: seq<Event>)
    requires ValidRun(s, es)
    ensures var t := Exec(s, es);
            && t.c.fired == s.c.fired + Deliveries(s, es)
            && t.c.scheduled == s.c.scheduled + |Requested(s, es)|
            && t.c.system == s.c.system + Spent(es, true)
            && t.c.user == s.c.user + Spent(es, false)
    decreases |es|
  {
    if es == [] {
      assert s.c.fired + [] == s.c.fired;
    } else {
      RunRecords(Step(s, es[0]), es[1..]);
      StepRecords(s, es[0]);
      hide Step, Enabled, NewDelivery, NewRequest;
      assert s.c.fired + Deliveries(s, es) == s.c.fired + NewDelivery(s, es[0]) + Deliveries(Step(s, es[0]), es[1..]);
    }
  }

  lemma StepRecords(s: Sim, e: Event)
    requires Enabled(s, e)
    ensures var t := Step(s, e);
            && t.c.fired == s.c.fired + NewDelivery(s, e)
            && t.c.scheduled == s.c.scheduled + |NewRequest(s, e)|
            && t.c.system == s.c.system + (if e.Tick? && e.mode == SystemMode then SystemTick else 0)
            && t.c.user == s.c.user + (if e.Tick? && e.mode != SystemMode then UserTick else 0)
  {
  }

  lemma InsertedMultiset(q: seq<Pending>, p: Pending)
    ensures multiset(Inserted(q, p, Compare)) == multiset(q) + multiset{p}
  {
    var i := Place(q, p, Compare);
    InsertedAt(q, p, Compare, i);
    hide Place, Inserted;
    assert q == q[..i] + q[i..];
  }

  lemma PoppedMultiset(q: seq<Pending>)
    requires q != []
    ensures multiset{q[0]} + multiset(q[1..]) == multiset(q)
  {
    assert q == [q[0]] + q[1..];
  }

  lemma StepConserves(s: Sim, e: Event)
    requires Enabled(s, e)
    ensures multiset(Whats(NewDelivery(s, e))) + multiset(Step(s, e).c.pending)
            == multiset(s.c.pending) + multiset(NewRequest(s, e))
  {
    hide Inserted;
    match e
    case Schedule(device, fromNow) =>
      InsertedMultiset(s.c.pending, Pending(device, s.c.total + fromNow, s.c.scheduled));
    case Deliver =>
      PoppedMultiset(s.c.pending);
      assert Whats(NewDelivery(s, e)) == [s.c.pending[0]];
    case _ =>
      assert Whats(NewDelivery(s, e)) == [];
  }

  lemma Telescope<T>(d: multiset<T>, x: multiset<T>, y: multiset<T>, r: multiset<T>, ds: multiset<T>, z: multiset<T>, rs: multiset<T>)
    requires d + y == x + r && ds + z == y + rs
    ensures (d + ds) + z == x + (r + rs)
  {
    assert (d + ds) + z == d + (y + rs);
    assert d + (y + rs) == (x + r) + rs;
  }

  /** Nothing scheduled is lost or delivered twice: what a run delivers, with what is pending
      in the end, is what was pending at first with what the run schedules. */
  lemma {:induction false} RunConserves(s: Sim, es: seq<Event>)
    requires ValidRun(s, es)
    ensures multiset(Whats(Deliveries(s, es))) + multiset(Exec(s, es).c.pending)
            == multiset(s.c.pending) + multiset(Requested(s, es))
    decreases |es|
  {
    hide Step, Enabled, NewDelivery, NewRequest;
    if es != [] {
      var t := Step(s, es[0]);
      StepConserves(s, es[0]);
      RunConserves(t, es[1..]);
      var d, ds := NewDelivery(s, es[0]), Deliveries(t, es[1..]);
      assert Whats(d + ds) == Whats(d) + Whats(ds);
      Telescope(multiset(Whats(d)), multiset(s.c.pending), multiset(t.c.pending), multiset(NewRequest(s, es[0])),
                multiset(Whats(ds)), multiset(Exec(t, es[1..]).c.pending), multiset(Requested(t, es[1..])));
    }
  }

  /** An interrupt's id is its place in the order of scheduling. */
  lemma {:induction false} RequestedIds(s: Sim, es: seq<Event>, k: nat)
    requires ValidRun(s, es) && k < |Requested(s, es)|
    ensures Requested(s, es)[k].id == s.c.scheduled + k
    decreases |es|
  {
    var n := |NewRequest(s, es[0])|;
    StepRecords(s, es[0]);
    hide Step, Enabled;
    if k >= n {
      RequestedIds(Step(s, es[0]), es[1..], k - n);
    }
  }

  lemma ConservedMembers(d: seq<Firing>, q: seq<Pending>, r: seq<Pending>)
    requires multiset(Whats(d)) + multiset(q) == multiset([]) + multiset(r)
    ensures forall i | 0 <= i < |d| :: d[i].what in r
    ensures forall p | p in q :: p in r
  {
    forall i | 0 <= i < |d| ensures d[i].what in r {
      assert Whats(d)[i] in multiset(Whats(d)) + multiset(q);
    }
    forall p | p in q ensures p in r {
      assert p in multiset(Whats(d)) + multiset(q);
    }
  }

  /** The laws of delivery, over every run from the start of time.  Interrupts are delivered
      in the order of their due times, those due together in the order of scheduling; each
      was scheduled, and is delivered less than a system tick late, and exactly on time when
      the machine was idle or running a user program. */
  lemma DeliveryLaws(es: seq<Event>, i: nat, j: nat)
    requires ValidRun(Boot, es) && i <= j < |Deliveries(Boot, es)|
    ensures var f, g := Deliveries(Boot, es)[i], Deliveries(Boot, es)[j];
            && (i < j ==> f.what.due < g.what.due || (f.what.due == g.what.due && f.what.id < g.what.id))
            && f.what.id < |Requested(Boot, es)| && Requested(Boot, es)[f.what.id] == f.what
            && 0 <= f.at - f.what.due < SystemTick
            && (f.mode != SystemMode ==> f.at == f.what.due)
  {
    hide Exec, Requested, Deliveries, ValidRun, SimInv;
    var d, t := Deliveries(Boot, es), Exec(Boot, es);
    BootInv();
    RunKeepsInv(Boot, es);
    RunRecords(Boot, es);
    RunConserves(Boot, es);
    ConservedMembers(d, t.c.pending, Requested(Boot, es));
    LoggedLaws(t, i, j);
    var k :| 0 <= k < |Requested(Boot, es)| && Requested(Boot, es)[k] == d[i].what;
    RequestedIds(Boot, es, k);
  }

  lemma LoggedLaws(t: Sim, i: nat, j: nat)
    requires SimInv(t) && i <= j < |t.c.fired|
    ensures var f, g := t.c.fired[i], t.c.fired[j];
            && (i < j ==> Before(f.what, g.what))
            && 0 <= f.at - f.what.due < Slack(f.mode)
  {
    assert History(t.c)[i] == t.c.fired[i].what && History(t.c)[j] == t.c.fired[j].what;
  }

  lemma TotalIsSum(c: Clock)
    requires ClockInv(c)
    ensures c.total == c.idle + c.system + c.user
  {
  }

  /** Over every run from the start of time the clock is the sum of its three parts, two of
      them the ticks that passed; and between ticks nothing pending is due. */
  lemma ClockLaws(es: seq<Event>)
    requires ValidRun(Boot, es)
    ensures var s := Exec(Boot, es);
            && s.c.total == s.c.idle + Spent(es, true) + Spent(es, false)
            && (s.phase.Between? ==> forall p | p in s.c.pending :: p.due > s.c.total)
            && (forall p | p in s.c.pending :: p in Requested(Boot, es))
  {
    hide Exec, Requested, Deliveries, ValidRun, ClockInv, Spent;
    BootInv();
    RunKeepsInv(Boot, es);
    RunRecords(Boot, es);
    RunConserves(Boot, es);
    var s := Exec(Boot, es);
    TotalIsSum(s.c);
    ConservedMembers(Deliveries(Boot, es), s.c.pending, Requested(Boot, es));
  }

  // -------------------------------------------------------------- the interrupt hardware

  /** Some run goes from one state to the other. */
  ghost predicate Leads(s: Sim, t: Sim) {
    exists es :: ValidRun(s, es) && Exec(s, es) == t
  }

  lemma LeadsNowhere(s: Sim)
    ensures Leads(s, s)
  {
    assert ValidRun(s, []) && Exec(s, []) == s;
  }

  lemma LeadsStep(s: Sim, e: Event)
    requires Enabled(s, e)
    ensures Leads(s, Step(s, e))
  {
    hide Step, Enabled;
    var t := Step(s, e);
    assert [e][1..] == [];
    assert ValidRun(t, []) && Exec(t, []) == t;
    assert ValidRun(s, [e]) && Exec(s, [e]) == t;
  }

  lemma {:induction false} RunFar(s: Sim, es: seq<Event>, fs: seq<Event>)
    requires ValidRun(s, es) && ValidRun(Exec(s, es), fs)
    ensures ValidRun(s, es + fs) && Exec(s, es + fs) == Exec(Exec(s, es), fs)
    decreases |es|
  {
    hide Step, Enabled;
    if es == [] {
      assert es + fs == fs;
    } else {
      RunFar(Step(s, es[0]), es[1..], fs);
      assert (es + fs)[1..] == es[1..] + fs;
    }
  }

  lemma LeadsFar(s: Sim, t: Sim, u: Sim)
    requires Leads(s, t) && Leads(t, u)
    ensures Leads(s, u)
  {
    hide ValidRun, Exec;
    var es :| ValidRun(s, es) && Exec(s, es) == t;
    var fs :| ValidRun(t, fs) && Exec(t, fs) == u;
    RunFar(s, es, fs);
  }

  lemma LeadsOn(s: Sim, t: Sim, e: Event)
    requires Leads(s, t) && Enabled(t, e)
    ensures Leads(s, Step(t, e))
  {
    hide Leads, Step, Enabled;
    LeadsStep(t, e);
    LeadsFar(s, t, Step(t, e));
  }

  lemma LeadsInv(s: Sim)
    requires Leads(Boot, s)
    ensures SimInv(s)
  {
    hide ValidRun, Exec, SimInv;
    var es :| ValidRun(Boot, es) && Exec(Boot, es) == s;
    BootInv();
    RunKeepsInv(Boot, es);
  }

  datatype Request = Request(device: int, fromNow: int)

  /** What a device's handler asks for: new interrupts, and perhaps a context switch. */
  datatype Response = Response(requests: seq<Request>, wantsYield: bool)

  /** Any handler, as a function of everything delivered so far and what is delivered now. */
  type Handler = (seq<Firing>, Pending) -> Response

  /** A handler's new interrupts are all in the future, as Schedule insists. */
  ghost predicate Scheduling(h: Handler) {
    forall f, p :: forall r | r in h(f, p).requests :: r.fromNow > 0
  }

  /** Everything a handler asks for is scheduled, in the order asked. */
  function ScheduledAll(c: Clock, rs: seq<Request>): Clock
    decreases |rs|
  {
    if rs == [] then c
    else Scheduled(ScheduledAll(c, rs[..|rs| - 1]), rs[|rs| - 1].device, rs[|rs| - 1].fromNow)
  }

  /** Delivering the first pending interrupt to its handler: the time after it, and whether it
      asked for a context switch. */
  ghost function Serve(h: Handler, c: Clock, mode: Mode): (Clock, bool)
    requires c.pending != []
  {
    var d := Delivered(c, mode);
    var r := h(d.fired, c.pending[0]);
    (ScheduledAll(d, r.requests), r.wantsYield)
  }

  lemma {:induction false} ScheduledAllKeeps(c: Clock, rs: seq<Request>)
    requires forall r | r in rs :: r.fromNow > 0
    ensures var d := ScheduledAll(c, rs);
            d.total == c.total && d.fired == c.fired && DueCount(d.pending, d.total) == DueCount(c.pending, c.total)
    decreases |rs|
  {
    hide Inserted, DueCount;
    if rs != [] {
      var n := |rs| - 1;
      ScheduledAllKeeps(c, rs[..n]);
      var d := ScheduledAll(c, rs[..n]);
      DueAfterInsert(d.pending, Pending(rs[n].device, d.total + rs[n].fromNow, d.scheduled), d.total);
    }
  }

  lemma ServeLess(h: Handler, c: Clock, mode: Mode)
    requires Scheduling(h) && IsDue(c)
    ensures var d := Serve(h, c, mode).0;
            && DueCount(d.pending, d.total) < DueCount(c.pending, c.total)
            && d.fired == c.fired + [Firing(c.pending[0], c.total, mode)] && d.total == c.total
  {
    var d := Delivered(c, mode);
    ScheduledAllKeeps(d, h(d.fired, c.pending[0]).requests);
  }

  /** Delivering all that is due, and all that comes due meanwhile, which is nothing. */
  ghost function ServeAll(h: Handler, c: Clock, mode: Mode, wanted: bool): (Clock, bool)
    requires Scheduling(h)
    decreases DueCount(c.pending, c.total)
  {
    if !IsDue(c) then (c, wanted)
    else
      ServeLess(h, c, mode);
      var (d, asked) := Serve(h, c, mode);
      ServeAll(h, d, mode, wanted || asked)
  }

  /** The i-th interrupt was delivered to a handler that asked for a context switch. */
  ghost predicate Asked(h: Handler, f: seq<Firing>, i: nat)
    requires i < |f|
  {
    h(f[..i + 1], f[i].what).wantsYield
  }

  /** A context switch follows exactly if one was already wanted or one of the handlers called
      asked for it. */
  lemma {:induction false} ServeAllAsks(h: Handler, c: Clock, mode: Mode, wanted: bool)
    requires Scheduling(h)
    ensures var (d, asked) := ServeAll(h, c, mode, wanted);
            && c.fired <= d.fired && d.total == c.total && !IsDue(d)
            && (asked <==> wanted || exists i :: |c.fired| <= i < |d.fired| && Asked(h, d.fired, i))
    decreases DueCount(c.pending, c.total)
  {
    hide DueCount, Scheduling, ScheduledAll;
    if IsDue(c) {
      ServeLess(h, c, mode);
      var (d, asked) := Serve(h, c, mode);
      ServeAllAsks(h, d, mode, wanted || asked);
      var e := ServeAll(h, d, mode, wanted || asked).0;
      var n := |c.fired|;
      assert e.fired[..n + 1] == d.fired == c.fired + [Firing(c.pending[0], c.total, mode)];
      assert Asked(h, e.fired, n) <==> asked;
    }
  }

  class Interrupt {
    const handler: Handler
    var enabled: bool
    var inHandler: bool
    var yieldOnReturn: bool
    var status: Mode
    var pending: seq<Pending>
    var totalTicks: int
    var idleTicks: int
    var systemTicks: int
    var userTicks: int
    var scheduled: nat
    var fired: seq<Firing>

    ghost function Time(): Clock
      reads this
    {
      Clock(totalTicks, idleTicks, systemTicks, userTicks, pending, fired, scheduled)
    }

    /** No interrupt is being delivered, and time is as some run leaves it. */
    ghost predicate Valid()
      reads this
    {
      Scheduling(handler) && Leads(Boot, Sim(Time(), Between)) && !inHandler
    }

    constructor (handler: Handler)
      requires Scheduling(handler)
      ensures Valid() && !enabled && Time() == Boot.c && status == SystemMode
    {
      hide Scheduling, Leads;
      this.handler := handler;
      enabled, inHandler, yieldOnReturn, status := false, false, false, SystemMode;
      pending, fired, scheduled := [], [], 0;
      totalTicks, idleTicks, systemTicks, userTicks := 0, 0, 0, 0;
      new;
      LeadsNowhere(Boot);
    }

    /** By a device between ticks, or by a handler while interrupts are being delivered. */
    method Schedule(device: int, fromNow: int, ghost phase: Phase)
      requires fromNow > 0
      modifies this`pending, this`scheduled
      ensures Time() == Scheduled(old(Time()), device, fromNow)
      ensures Leads(old(Sim(Time(), phase)), Sim(Time(), phase))
    {
      hide Leads, Inserted;
      LeadsStep(Sim(Time(), phase), Event.Schedule(device, fromNow));
      pending := Inserted(pending, Pending(device, totalTicks + fromNow, scheduled), Compare);
      scheduled := scheduled + 1;
    }

    /** The state while interrupts are being delivered. */
    ghost function Now(): Sim
      reads this
    {
      Sim(Time(), Delivering(status))
    }

    /** Calling a handler, and scheduling what it asks for. */
    method CallBack(next: Pending)
      requires Scheduling(handler)
      modifies this`pending, this`scheduled, this`yieldOnReturn
      ensures Leads(old(Now()), Now()) && DueCount(pending, totalTicks) == DueCount(old(pending), totalTicks)
      ensures Time() == ScheduledAll(old(Time()), handler(fired, next).requests)
      ensures yieldOnReturn == (old(yieldOnReturn) || handler(fired, next).wantsYield)
    {
      hide Leads, DueCount, Inserted;
      var response := handler(fired, next);
      LeadsNowhere(Now());
      var k := 0;
      while k < |response.requests|
        invariant 0 <= k <= |response.requests| && Leads(old(Now()), Now())
        invariant DueCount(pending, totalTicks) == DueCount(old(pending), totalTicks)
        invariant Time() == ScheduledAll(old(Time()), response.requests[..k]) && yieldOnReturn == old(yieldOnReturn)
      {
        assert response.requests[..k + 1][..k] == response.requests[..k];
        var r := response.requests[k];
        ghost var here := Now();
        DueAfterInsert(pending, Pending(r.device, totalTicks + r.fromNow, scheduled), totalTicks);
        Schedule(r.device, r.fromNow, Delivering(status));
        LeadsFar(old(Now()), here, Now());
        k := k + 1;
      }
      assert response.requests[..k] == response.requests;
      assert Time() == ScheduledAll(old(Time()), response.requests);
      yieldOnReturn := yieldOnReturn || response.wantsYield;
    }

    /** One turn of the delivery loop. */
    method Deliver()
      requires Scheduling(handler) && IsDue(Time())
      modifies this`pending, this`scheduled, this`yieldOnReturn, this`fired
      ensures Leads(old(Now()), Now())
      ensures fired == old(fired) + [Firing(old(pending)[0], totalTicks, status)]
      ensures DueCount(pending, totalTicks) < DueCount(old(pending), totalTicks)
      ensures var (c, asked) := Serve(handler, old(Time()), status);
              Time() == c && yieldOnReturn == (old(yieldOnReturn) || asked)
    {
      hide Leads, Scheduling, ScheduledAll;
      LeadsStep(Now(), Event.Deliver);
      var next := pending[0];
      pending := pending[1..];
      fired := fired + [Firing(next, totalTicks, status)];
      ghost var here := Now();
      CallBack(next);
      LeadsFar(old(Now()), here, Now());
    }

    /** Where a check starts from: between ticks when it may advance the clock, otherwise just
        after a tick. */
    ghost function Start(advanceClock: bool): Sim
      reads this
    {
      Sim(Time(), if advanceClock then Between else Delivering(status))
    }

    method CheckIfDue(advanceClock: bool) returns (any: bool)
      requires Scheduling(handler) && !enabled && !inHandler
      requires SimInv(Start(advanceClock)) && (advanceClock ==> status == IdleMode)
      modifies this`pending, this`scheduled, this`yieldOnReturn, this`fired, this`inHandler, this`totalTicks, this`idleTicks
      ensures Leads(old(Start(advanceClock)), Sim(Time(), Between)) && !inHandler
      ensures any <==> old(pending) != [] && (advanceClock || old(pending)[0].due <= old(totalTicks))
      ensures any ==> old(fired) < fired && fired[|old(fired)|].what == old(pending)[0]
      ensures forall i | |old(fired)| <= i < |fired| :: fired[i].at == totalTicks && fired[i].mode == status
      ensures !any ==> Time() == old(Time())
      ensures totalTicks == if any && advanceClock then old(pending)[0].due else old(totalTicks)
      ensures idleTicks - old(idleTicks) == totalTicks - old(totalTicks) && old(fired) <= fired
      ensures var c := old(Time());
              (Time(), yieldOnReturn) ==
              ServeAll(handler, if advanceClock && c.pending != [] && c.pending[0].due > c.total then Idled(c) else c,
                       status, old(yieldOnReturn))
    {
      hide Leads, DueCount, Scheduling, ClockInv, Serve;
      ghost var from := Start(advanceClock);
      LeadsNowhere(from);
      if pending == [] {
        if !advanceClock { LeadsStep(from, Settle); }
        return false;
      }
      var next := pending[0];
      if next.due > totalTicks {
        if !advanceClock {
          LeadsStep(from, Settle);
          return false;
        }
        LeadsStep(from, Jump);
        idleTicks := idleTicks + (next.due - totalTicks);
        totalTicks := next.due;
      }
      inHandler := true;
      FireAll(from);
      inHandler := false;
      return true;
    }

    /** The delivery loop. */
    method FireAll(ghost from: Sim)
      requires Scheduling(handler) && IsDue(Time()) && Leads(from, Now())
      modifies this`pending, this`scheduled, this`yieldOnReturn, this`fired
      ensures Leads(from, Sim(Time(), Between)) && old(fired) < fired && fired[|old(fired)|].what == old(pending)[0]
      ensures forall i | |old(fired)| <= i < |fired| :: fired[i].at == totalTicks && fired[i].mode == status
      ensures (Time(), yieldOnReturn) == ServeAll(handler, old(Time()), status, old(yieldOnReturn))
    {
      hide Leads, DueCount, Scheduling, Serve;
      ghost var here := Now();
      ghost var whole := ServeAll(handler, Time(), status, yieldOnReturn);
      Deliver();
      LeadsFar(from, here, Now());
      while pending != [] && pending[0].due <= totalTicks
        invariant Leads(from, Now()) && old(fired) < fired && fired[|old(fired)|].what == old(pending)[0]
        invariant forall i | |old(fired)| <= i < |fired| :: fired[i].at == totalTicks && fired[i].mode == status
        invariant ServeAll(handler, Time(), status, yieldOnReturn) == whole
        decreases DueCount(pending, totalTicks)
      {
        here := Now();
        Deliver();
        LeadsFar(from, here, Now());
      }
      LeadsStep(Now(), Settle);
      LeadsFar(from, Now(), Sim(Time(), Between));
    }

    method YieldOnReturn()
      requires inHandler
      modifies this`yieldOnReturn
      ensures yieldOnReturn
    {
      yieldOnReturn := true;
    }

    /** Advancing time by one tick of the current mode and delivering what has come due; the
        result says whether to switch threads now. */
    method OneTick() returns (switchThreads: bool)
      requires Valid()
      modifies this
      ensures Valid() && enabled && status == old(status) && !yieldOnReturn
      ensures Leads(Step(old(Sim(Time(), Between)), Tick(status)), Sim(Time(), Between))
      ensures var c := Ticked(old(Time()), status);
              totalTicks == c.total && idleTicks == c.idle && systemTicks == c.system && userTicks == c.user
      ensures old(fired) <= fired
      ensures forall i | |old(fired)| <= i < |fired| :: fired[i].at == totalTicks && fired[i].mode == status
      ensures (Time(), switchThreads) == ServeAll(handler, Ticked(old(Time()), status), status, old(yieldOnReturn))
      ensures switchThreads <==> old(yieldOnReturn) || exists i :: |old(fired)| <= i < |fired| && Asked(handler, fired, i)
    {
      hide ClockInv, Leads, Scheduling, ServeAll, Asked;
      ServeAllAsks(handler, Ticked(Time(), status), status, yieldOnReturn);
      ghost var from := Sim(Time(), Between);
      LeadsOn(Boot, from, Tick(status));
      if status == SystemMode {
        totalTicks := totalTicks + SystemTick;
        systemTicks := systemTicks + SystemTick;
      } else {
        totalTicks := totalTicks + UserTick;
        userTicks := userTicks + UserTick;
      }
      enabled := false;
      LeadsInv(Now());
      ghost var ticked := Now();
      var _ := CheckIfDue(false);
      LeadsFar(Boot, ticked, Sim(Time(), Between));
      enabled := true;
      switchThreads := yieldOnReturn;
      yieldOnReturn := false;
    }

    /** Nothing to run: time jumps to the next interrupt, if there is one; the result says
        whether there was, and when there was not the machine halts. */
    method Idle() returns (any: bool)
      requires Valid() && !enabled
      modifies this
      ensures Valid() && !enabled && (any <==> old(pending) != [])
      ensures Leads(old(Sim(Time(), Between)), Sim(Time(), Between))
      ensures any ==> status == SystemMode && totalTicks == old(pending)[0].due
      ensures any ==> old(fired) < fired && fired[|old(fired)|].what == old(pending)[0]
      ensures systemTicks == old(systemTicks) && userTicks == old(userTicks)
      ensures forall i | |old(fired)| <= i < |fired| :: fired[i].what.due == fired[i].at == totalTicks
      ensures any ==> (Time(), yieldOnReturn) == ServeAll(handler, Idled(old(Time())), IdleMode, old(yieldOnReturn))
    {
      hide Scheduling, Leads, ServeAll;
      ghost var from := Sim(Time(), Between);
      LeadsInv(from);
      status := IdleMode;
      any := CheckIfDue(true);
      LeadsFar(Boot, from, Sim(Time(), Between));
      LeadsInv(Sim(Time(), Between));
      assert forall i | |old(fired)| <= i < |fired| :: 0 <= fired[i].at - fired[i].what.due < Slack(IdleMode);
      if any {
        status := SystemMode;
      }
    }

    /** A handler may not enable interrupts; anyone may disable them. */
    method SetLevel(now: bool) returns (was: bool, switchThreads: bool)
      requires now ==> Valid()
      modifies this
      ensures was == old(enabled) && enabled == now
      ensures old(Valid()) ==> Valid()
      ensures !(now && !was) ==> Time() == old(Time()) && !switchThreads && inHandler == old(inHandler)
      ensures now && !was ==> Leads(Step(old(Sim(Time(), Between)), Tick(old(status))), Sim(Time(), Between))
      ensures now && !was ==>
                (Time(), switchThreads) == ServeAll(handler, Ticked(old(Time()), old(status)), old(status), old(yieldOnReturn))
    {
      hide Leads, Scheduling, ServeAll;
      was, switchThreads := enabled, false;
      enabled := now;
      if now && !was {
        switchThreads := OneTick();
      }
    }
  }
}
