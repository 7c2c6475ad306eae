/** Mail from one machine to another: the sending side of one, the network, and the receiving
    side of the other, run together.  Further machines may send to the receiver too. */
module Network {
  import opened Options
  import opened Kernel
  import opened Bytes
  import R = Requests
  import O = Outbox
  import P = PostOffice

  datatype System = System(sender: O.System, receiver: P.System)

  datatype Event =
    | Sends(e: O.Event, pad: seq<byte>)   // of the sending machine
    | Receives(a: P.Action)               // of the receiving one, or of a third sending to it

  /** The event puts a packet for the receiver on the network. */
  predicate Crosses(y: System, e: Event) {
    && e.Sends? && e.e.e.Issue?
    && y.sender.r.st.k.cpu.t in y.sender.r.d.jobs
    && y.sender.r.d.jobs[y.sender.r.st.k.cpu.t].op.toHost == y.receiver.n.host
  }

  ghost predicate Enabled(y: System, e: Event) {
    match e
    case Sends(e', _) =>
      && O.Enabled(y.sender, e')
      && (Crosses(y, e) ==> y.sender.r.d.jobs[y.sender.r.st.k.cpu.t].op.hdr.to < |y.receiver.n.boxes|)
    case Receives(a) =>
      P.Can(y.receiver, a) && (a.Send? ==> a.m.pkt.from != y.sender.host)
  }

  // -------------------------------------------------------------- messages by machine

  /** The messages that come from a machine, or go to one, in order. */
  function From(host: int32, ms: seq<P.Mail>): seq<P.Mail> {
    if ms == [] then [] else (if ms[0].pkt.from == host then [ms[0]] else []) + From(host, ms[1..])
  }

  function To(host: int32, ms: seq<P.Mail>): seq<P.Mail> {
    if ms == [] then [] else (if ms[0].pkt.to == host then [ms[0]] else []) + To(host, ms[1..])
  }

  lemma {:induction false} FromAppend(host: int32, a: seq<P.Mail>, b: seq<P.Mail>)
    ensures From(host, a + b) == From(host, a) + From(host, b)
  {
    if a == [] {
      assert a + b == b;
    } else {
      assert (a + b)[1..] == a[1..] + b;
      FromAppend(host, a[1..], b);
    }
  }

  lemma {:induction false} ToAppend(host: int32, a: seq<P.Mail>, m: P.Mail)
    ensures To(host, a + [m]) == To(host, a) + if m.pkt.to == host then [m] else []
  {
    if a == [] {
      assert a + [m] == [m] && [m][1..] == [];
    } else {
      assert (a + [m])[1..] == a[1..] + [m];
      ToAppend(host, a[1..], m);
    }
  }

  lemma FromOne(host: int32, m: P.Mail)
    ensures From(host, [m]) == if m.pkt.from == host then [m] else []
  {
    assert [m][1..] == [];
  }

  /** Sorting by machine and by box commute. */
  lemma {:induction false} FromBox(host: int32, box: nat, ms: seq<P.Mail>)
    ensures From(host, P.ForBox(box, ms)) == P.ForBox(box, From(host, ms))
  {
    if ms != [] {
      FromBox(host, box, ms[1..]);
      var one := if ms[0].hdr.to == box then [ms[0]] else [];
      var other := if ms[0].pkt.from == host then [ms[0]] else [];
      FromAppend(host, one, P.ForBox(box, ms[1..]));
      P.ForBoxAppend(box, other, From(host, ms[1..]));
      FromOne(host, ms[0]);
      P.OneForBox(box, ms[0]);
    }
  }

  lemma FromPrefix(host: int32, a: seq<P.Mail>, b: seq<P.Mail>)
    requires a <= b
    ensures From(host, a) <= From(host, b)
  {
    hide From;
    assert b == a + b[|a|..];
    FromAppend(host, a, b[|a|..]);
  }

  lemma {:induction false} FromMember(host: int32, ms: seq<P.Mail>, m: P.Mail)
    ensures m in From(host, ms) <==> m in ms && m.pkt.from == host
  {
    if ms != [] {
      FromMember(host, ms[1..], m);
    }
  }

  lemma {:induction false} ToMember(host: int32, ms: seq<P.Mail>, m: P.Mail)
    ensures m in To(host, ms) <==> m in ms && m.pkt.to == host
  {
    if ms != [] {
      ToMember(host, ms[1..], m);
    }
  }

  lemma {:induction false} BoxMember(box: nat, ms: seq<P.Mail>, m: P.Mail)
    ensures m in P.ForBox(box, ms) <==> m in ms && m.hdr.to == box
  {
    if ms != [] {
      BoxMember(box, ms[1..], m);
    }
  }

  lemma {:induction false} SubsequenceMember(a: seq<P.Mail>, b: seq<P.Mail>, m: P.Mail)
    requires P.Subsequence(a, b) && m in a
    ensures m in b
    decreases |b|
  {
    if a[0] == b[0] && P.Subsequence(a[1..], b[1..]) {
      if m != a[0] {
        SubsequenceMember(a[1..], b[1..], m);
      }
    } else {
      P.SubsequenceOfTail(a, b);
      SubsequenceMember(a, b[1..], m);
    }
  }

  // -------------------------------------------------------------- the two machines

  /** What the network has carried from the sender to the receiver is what the sender has put on
      its wire for it. */
  ghost predicate Inv(y: System) {
    && O.Inv(y.sender) && P.SystemInv(y.receiver)
    && From(y.sender.host, y.receiver.n.carried) == To(y.receiver.n.host, y.sender.wire)
  }

  /** What the receiving machine sees of an event. */
  ghost function Arrival(y: System, e: Event): P.Action
    requires Inv(y) && Enabled(y, e) && (e.Receives? || Crosses(y, e))
  {
    if e.Receives? then e.a else P.Send(O.Sending(y.sender), e.pad, e.e.lost)
  }

  lemma CanArrive(y: System, e: Event)
    requires Inv(y) && Enabled(y, e) && (e.Receives? || Crosses(y, e))
    ensures P.Can(y.receiver, Arrival(y, e))
    ensures e.Sends? ==> var m := O.Sending(y.sender); m.pkt.from == y.sender.host && m.pkt.to == y.receiver.n.host
  {
    hide R.Inv, R.Enabled, P.SystemInv;
    if e.Sends? {
      R.AlwaysReady(y.sender.r, R.Issue);
    }
  }

  ghost function Step(y: System, e: Event): System
    requires Inv(y) && Enabled(y, e)
  {
    System(if e.Sends? then O.Step(y.sender, e.e) else y.sender,
           if e.Receives? || Crosses(y, e) then CanArrive(y, e); P.Next(y.receiver, Arrival(y, e)) else y.receiver)
  }

  /** Every event of either machine preserves this. */
  lemma StepKeepsInv(y: System, e: Event)
    requires Inv(y) && Enabled(y, e)
    ensures Inv(Step(y, e))
  {
    hide O.Inv, O.Enabled, P.SystemInv, P.Can, From, To, O.Sending;
    if e.Sends? {
      O.StepKeepsInv(y.sender, e.e);
      WireAfter(y, e);
    }
    if e.Receives? || Crosses(y, e) {
      CanArrive(y, e);
      P.NextKeepsInv(y.receiver, Arrival(y, e));
      CarriedAfter(y.receiver, Arrival(y, e), y.sender.host);
    }
  }

  lemma CarriedAfter(y: P.System, a: P.Action, host: int32)
    requires P.SystemInv(y) && P.Can(y, a)
    ensures var n := P.Next(y, a).n;
            && n.host == y.n.host
            && From(host, n.carried) == From(host, y.n.carried) +
               if a.Send? && !a.lost && a.m.pkt.from == host then [a.m] else []
  {
    hide P.SystemInv, P.Can, From;
    P.ActionSound(y, a);
    if a.Send? {
      FromAppend(host, y.n.carried, [a.m]);
      FromOne(host, a.m);
    }
  }

  lemma WireAfter(y: System, e: Event)
    requires Inv(y) && Enabled(y, e) && e.Sends?
    ensures var z, host := O.Step(y.sender, e.e), y.receiver.n.host;
            && z.host == y.sender.host
            && To(host, z.wire) == To(host, y.sender.wire) + if Crosses(y, e) && !e.e.lost then [O.Sending(y.sender)] else []
  {
    hide O.Inv, P.SystemInv, To, R.Enabled;
    if e.e.e.Issue? {
      SendingTo(y.sender);
      ToAppend(y.receiver.n.host, y.sender.wire, O.Sending(y.sender));
    }
  }

  lemma SendingTo(z: O.System)
    requires O.Inv(z) && R.Enabled(z.r, R.Issue)
    ensures z.r.st.k.cpu.t in z.r.d.jobs && O.Sending(z).pkt.to == z.r.d.jobs[z.r.st.k.cpu.t].op.toHost
  {
    hide R.Inv, R.Enabled;
    R.AlwaysReady(z.r, R.Issue);
  }

  // -------------------------------------------------------------- whole runs

  /** Both sides just constructed. */
  ghost predicate Initial(y: System) {
    O.Initial(y.sender) && P.Initial(y.receiver)
  }

  lemma InitialInv(y: System)
    requires Initial(y)
    ensures Inv(y)
  {
    hide O.Inv, P.SystemInv;
    O.InitialInv(y.sender);
    P.InitialInv(y.receiver);
  }

  ghost predicate ValidRun(y: System, es: seq<Event>)
    requires Inv(y)
    decreases |es|
  {
    es == [] || (Enabled(y, es[0]) && (StepKeepsInv(y, es[0]); ValidRun(Step(y, es[0]), es[1..])))
  }

  ghost function Exec(y: System, es: seq<Event>): System
    requires Inv(y) && ValidRun(y, es)
    decreases |es|
  {
    if es == [] then y else StepKeepsInv(y, es[0]); Exec(Step(y, es[0]), es[1..])
  }

  ghost predicate Reachable(y: System) {
    exists y0, es | Initial(y0) && Inv(y0) && ValidRun(y0, es) :: Exec(y0, es) == y
  }

  lemma {:induction false} ExecKeepsInv(y: System, es: seq<Event>)
    requires Inv(y) && ValidRun(y, es)
    ensures Inv(Exec(y, es))
    decreases |es|
  {
    hide Inv, Step, Enabled;
    if es != [] {
      StepKeepsInv(y, es[0]);
      ExecKeepsInv(Step(y, es[0]), es[1..]);
    }
  }

  lemma ReachableInv(y: System)
    requires Reachable(y)
    ensures Inv(y)
  {
    var y0, es :| Initial(y0) && Inv(y0) && ValidRun(y0, es) && Exec(y0, es) == y;
    ExecKeepsInv(y0, es);
  }

  /** In every reachable state, what threads have received from a box with the sender's address on
      it is, in order, the beginning of what the sender has put on its wire for that machine and
      box; and that is some of the packets made of the letters handed to Send, in order. */
  lemma MailArrives(y: System, box: nat)
    requires Reachable(y) && box < |y.receiver.n.boxes|
    ensures box < |y.receiver.n.received|
    ensures From(y.sender.host, y.receiver.n.received[box]) <= P.ForBox(box, To(y.receiver.n.host, y.sender.wire))
    ensures O.AllFit(y.sender.r.d.log) && P.Subsequence(y.sender.wire, O.Messages(y.sender.host, y.sender.r.d.log))
  {
    hide O.Packet, O.Fit, R.Inv, From, To, P.ForBox, P.Subsequence, P.SystemInv, Reachable;
    ReachableInv(y);
    var n := y.receiver.n;
    ReceivedPrefix(y.receiver, box);
    FromPrefix(y.sender.host, n.received[box], P.ForBox(box, n.carried));
    FromBox(y.sender.host, box, n.carried);
  }

  lemma ReceivedPrefix(y: P.System, box: nat)
    requires P.SystemInv(y) && box < |y.n.boxes|
    ensures box < |y.n.received| && y.n.received[box] <= P.ForBox(box, y.n.carried)
  {
    hide Kernel.Inv, P.ProtocolInv, P.WireInv, P.ForBox, P.Flow;
    assert y.n.received[box] + y.n.boxes[box] + P.ForBox(box, P.Flow(y.n)) == P.ForBox(box, y.n.carried);
  }

  /** So a message received with the sender's address was handed to Send there, by a call that
      named this machine and this box, with this mail header and, up to its length, these data. */
  lemma MailIsGenuine(y: System, box: nat, m: P.Mail)
    requires Reachable(y) && box < |y.receiver.n.boxes| && box < |y.receiver.n.received|
    requires m in y.receiver.n.received[box] && m.pkt.from == y.sender.host
    ensures exists j :: 0 <= j < |y.sender.r.d.log| &&
              var l := y.sender.r.d.log[j].op;
              && l.toHost == y.receiver.n.host && l.hdr == m.hdr && l.hdr.to == box
              && 0 <= l.hdr.length <= |l.data| && m.data == l.data[..l.hdr.length]
  {
    hide R.Inv, From, To, P.ForBox, P.Subsequence, P.SystemInv, Reachable;
    MailArrives(y, box);
    var host, wire, log := y.sender.host, y.sender.wire, y.sender.r.d.log;
    FromMember(host, y.receiver.n.received[box], m);
    assert m in P.ForBox(box, To(y.receiver.n.host, wire));
    BoxMember(box, To(y.receiver.n.host, wire), m);
    ToMember(y.receiver.n.host, wire, m);
    SubsequenceMember(wire, O.Messages(host, log), m);
    var j :| 0 <= j < |log| && O.Messages(host, log)[j] == m;
  }
}
