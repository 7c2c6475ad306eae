/** PostOfficeOutput: Send hands one packet at a time to the network, which may lose it. */
module Outbox {
  import opened Options
  import opened Kernel
  import R = Requests
  import opened Bytes
  import P = PostOffice

  /** The arguments of Send. */
  datatype Letter = Letter(toHost: int32, hdr: P.Header, data: seq<byte>)

  /** What Send asserts of them. */
  predicate Fit(l: Letter) {
    0 <= l.hdr.length <= P.MaxMailSize && l.hdr.length <= |l.data| && 0 <= l.hdr.to
  }

  datatype System = System(
    r: R.System<Letter>,
    host: int32,               // this machine's address
    sendBusy: bool,            // NetworkOutput::sendBusy
    wire: seq<P.Mail>)         // history: the messages handed to the socket

  /** An event of the send protocol; lost says whether the network drops the packet, if the
      event is one that sends. */
  datatype Event = Event(e: R.Event<Letter>, lost: bool)

  predicate Enabled(y: System, e: Event) {
    R.Enabled(y.r, e.e) && (e.e.Start? ==> Fit(e.e.op))
  }

  /** The packet made of a letter on a machine. */
  function Packet(host: int32, l: Letter): P.Mail
    requires Fit(l)
  {
    P.Compose(l.toHost, host, l.hdr, l.data)
  }

  /** NetworkOutput::Send and CallBack.  Send asserts that sendBusy is false and does not set
      it. */
  function Flag(sendBusy: bool, e: R.Event<Letter>): bool {
    if e.Interrupt? then false else sendBusy
  }

  function Wire(wire: seq<P.Mail>, m: P.Mail, lost: bool): seq<P.Mail> {
    if lost then wire else wire + [m]
  }

  ghost predicate AllFit(log: seq<R.Request<Letter>>) {
    forall i | 0 <= i < |log| :: Fit(log[i].op)
  }

  function Messages(host: int32, log: seq<R.Request<Letter>>): (ms: seq<P.Mail>)
    requires AllFit(log)
    ensures |ms| == |log|
  {
    seq(|log|, i requires 0 <= i < |log| => Packet(host, log[i].op))
  }

  ghost predicate MailInv(d: R.Device<Letter>, host: int32, sendBusy: bool, wire: seq<P.Mail>) {
    && !sendBusy && AllFit(d.log) && P.Subsequence(wire, Messages(host, d.log))
    && (forall t | t in d.jobs :: Fit(d.jobs[t].op))
  }

  ghost predicate Inv(y: System) {
    R.Inv(y.r) && MailInv(y.r.d, y.host, y.sendBusy, y.wire)
  }

  ghost function Step(y: System, e: Event): System
    requires Inv(y) && Enabled(y, e)
  {
    R.AlwaysReady(y.r, e.e);
    y.(r := R.Step(y.r, e.e), sendBusy := Flag(y.sendBusy, e.e),
       wire := if e.e.Issue? then Wire(y.wire, Sending(y), e.lost) else y.wire)
  }

  /** The packet the running thread is about to send. */
  ghost function Sending(y: System): P.Mail
    requires Inv(y) && R.Enabled(y.r, R.Issue)
  {
    R.AlwaysReady(y.r, R.Issue);
    Packet(y.host, y.r.d.jobs[y.r.st.k.cpu.t].op)
  }

  lemma MailKept(d: R.Device<Letter>, t: Tid, host: int32, sendBusy: bool, wire: seq<P.Mail>, e: Event)
    requires R.Ready(d, t, e.e) && MailInv(d, host, sendBusy, wire) && (e.e.Start? ==> Fit(e.e.op))
    ensures MailInv(R.DeviceStep(d, t, e.e), host, Flag(sendBusy, e.e),
                    if e.e.Issue? then Wire(wire, Packet(host, d.jobs[t].op), e.lost) else wire)
  {
    hide P.Subsequence, Fit, P.Compose;
    if e.e.Issue? {
      var m, d' := Packet(host, d.jobs[t].op), R.DeviceStep(d, t, e.e);
      assert Messages(host, d'.log) == Messages(host, d.log) + [m];
      P.SubsequenceBoth(wire, Messages(host, d.log), m);
    }
  }

  /** Every event preserves the invariant. */
  lemma StepKeepsInv(y: System, e: Event)
    requires Inv(y) && Enabled(y, e)
    ensures Inv(Step(y, e))
  {
    hide R.Inv, R.Enabled, MailInv;
    R.AlwaysReady(y.r, e.e);
    R.StepKeepsInv(y.r, e.e);
    MailKept(y.r.d, y.r.st.k.cpu.t, y.host, y.sendBusy, y.wire, e);
  }

  // --------------------------------------------------------------- whole runs

  /** A PostOfficeOutput just constructed. */
  ghost predicate Initial(y: System) {
    R.Initial(y.r) && !y.sendBusy && y.wire == []
  }

  lemma InitialInv(y: System)
    requires Initial(y)
    ensures Inv(y)
  {
    hide R.Inv, R.Initial;
    R.InitialInv(y.r);
  }

  ghost predicate ValidRun(y: System, es: seq<Event>)
    requires Inv(y)
    decreases |es|
  {
    es == [] || (Enabled(y, es[0]) && (StepKeepsInv(y, es[0]); ValidRun(Step(y, es[0]), es[1..])))
  }

  ghost function Exec(y: System, es: seq<Event>): System
    requires Inv(y) && ValidRun(y, es)
    decreases |es|
  {
    if es == [] then y else StepKeepsInv(y, es[0]); Exec(Step(y, es[0]), es[1..])
  }

  ghost predicate Reachable(y: System) {
    exists y0, es | Initial(y0) && Inv(y0) && ValidRun(y0, es) :: Exec(y0, es) == y
  }

  lemma {:induction false} ExecKeepsInv(y: System, es: seq<Event>)
    requires Inv(y) && ValidRun(y, es)
    ensures Inv(Exec(y, es))
    decreases |es|
  {
    hide Inv, Step, Enabled;
    if es != [] {
      StepKeepsInv(y, es[0]);
      ExecKeepsInv(Step(y, es[0]), es[1..]);
    }
  }

  lemma ReachableInv(y: System)
    requires Reachable(y)
    ensures Inv(y)
  {
    var y0, es :| Initial(y0) && Inv(y0) && ValidRun(y0, es) && Exec(y0, es) == y;
    ExecKeepsInv(y0, es);
  }

  /** In every reachable state of any number of sending threads at most one packet is between
      being sent and its interrupt, none when another is sent, and a thread back from P has the
      interrupt for its own packet, the last one sent, behind it. */
  lemma OnePacketInFlight(y: System)
    requires Reachable(y)
    ensures y.r.d.pending <= 1
    ensures Enabled(y, Event(R.Issue, false)) ==> y.r.d.pending == 0
    ensures forall t | t in y.r.d.jobs && y.r.d.jobs[t].Done? ::
              && y.r.d.pending == 0 && y.r.d.completed == |y.r.d.log| > 0
              && y.r.d.log[|y.r.d.log| - 1] == R.Request(t, y.r.d.jobs[t].op)
  {
    ReachableInv(y);
    hide R.Inv, R.Enabled, Reachable, MailInv;
    R.OneAtATime(y.r);
    if R.Enabled(y.r, R.Issue) {
      R.NeverBusy(y.r);
    }
  }

  /** What the socket gets is, in order and unaltered, some of the packets made of the letters
      handed to Send. */
  lemma WireIsSent(y: System)
    requires Reachable(y)
    ensures AllFit(y.r.d.log) && P.Subsequence(y.wire, Messages(y.host, y.r.d.log))
  {
    ReachableInv(y);
    hide R.Inv, Reachable, Fit, P.Subsequence;
  }

  /** The device's own test for a packet in flight can never fail, because its flag is never
      set: it is still false when a packet has just been sent. */
  lemma FlagNeverSet(y: System, lost: bool)
    requires Reachable(y) && Enabled(y, Event(R.Issue, lost))
    ensures Inv(y) && Step(y, Event(R.Issue, lost)).r.d.pending == 1 && !Step(y, Event(R.Issue, lost)).sendBusy
  {
    hide R.Inv, R.Enabled, Reachable, MailInv;
    ReachableInv(y);
    R.NeverBusy(y.r);
    R.AlwaysReady(y.r, R.Issue);
    NotBusy(y.r.d, y.host, y.sendBusy, y.wire);
  }

  lemma NotBusy(d: R.Device<Letter>, host: int32, sendBusy: bool, wire: seq<P.Mail>)
    requires MailInv(d, host, sendBusy, wire)
    ensures !sendBusy
  {
  }
}
