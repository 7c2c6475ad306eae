/** The receiving post office: the network device with its one-packet inbox, the postal
    worker thread, and the mailboxes, over the kernel's semaphores.

    Mailboxes are SynchLists; module SynchList shows those are first-in first-out
    channels, so here putting into and getting from a box are single steps.  Senders on
    other machines appear as packets reaching the socket, or getting lost. */
module PostOffice {
  import opened Options
  import opened Kernel
  import opened Bytes

  const HeaderSize := 12        // sizeof(PacketHeader), sizeof(MailHeader)
  const MaxWireSize := 64
  const MaxPacketSize := MaxWireSize - HeaderSize
  const MaxMailSize := MaxPacketSize - HeaderSize

  /** PacketHeader and MailHeader have the same layout. */
  datatype Header = Header(to: int32, from: int32, length: int32)

  datatype Mail = Mail(pkt: Header, hdr: Header, data: seq<byte>)

  // ------------------------------------------------------------ packets as bytes

  function EncodeHeader(h: Header): (b: seq<byte>)
    ensures |b| == HeaderSize
  {
    EncodeInt(h.to) + EncodeInt(h.from) + EncodeInt(h.length)
  }

  function DecodeHeader(b: seq<byte>): Header
    requires |b| >= HeaderSize
  {
    Header(DecodeInt(b[0..4]), DecodeInt(b[4..8]), DecodeInt(b[8..12]))
  }

  lemma HeaderRoundTrip(h: Header, rest: seq<byte>)
    ensures DecodeHeader(EncodeHeader(h) + rest) == h
  {
    var b := EncodeHeader(h) + rest;
    assert b[0..4] == EncodeInt(h.to) && b[4..8] == EncodeInt(h.from) && b[8..12] == EncodeInt(h.length);
    IntRoundTrip(h.to);
    IntRoundTrip(h.from);
    IntRoundTrip(h.length);
  }

  /** PostOfficeOutput::Send: the packet header's length covers the mail header too. */
  function Compose(toHost: int32, fromHost: int32, hdr: Header, data: seq<byte>): (m: Mail)
    requires 0 <= hdr.length <= MaxMailSize && hdr.length <= |data|
    ensures Sendable(m) && m.pkt.to == toHost && m.pkt.from == fromHost && m.hdr == hdr && m.data == data[..hdr.length]
  {
    Mail(Header(toHost, fromHost, hdr.length + HeaderSize), hdr, data[..hdr.length])
  }

  predicate Sendable(m: Mail) {
    0 <= m.hdr.length <= MaxMailSize && |m.data| == m.hdr.length && m.pkt.length == m.hdr.length + HeaderSize
  }

  /** NetworkOutput::Send: the bytes on the wire; `pad` is whatever the buffer held. */
  function Frame(m: Mail, pad: seq<byte>): seq<byte> {
    EncodeHeader(m.pkt) + (EncodeHeader(m.hdr) + m.data) + pad
  }

  /** A packet whose headers agree, for this machine. */
  predicate GoodPacket(hdr: Header, buf: seq<byte>, numBoxes: nat) {
    && |buf| == hdr.length >= HeaderSize
    && var m := DecodeHeader(buf);
       0 <= m.length <= MaxMailSize && m.length + HeaderSize == hdr.length && 0 <= m.to < numBoxes
  }

  /** What PostalDelivery makes of a received packet. */
  function Parse(hdr: Header, buf: seq<byte>): Mail
    requires |buf| >= HeaderSize
  {
    Mail(hdr, DecodeHeader(buf), buf[HeaderSize..])
  }

  /** A composed message survives framing, the wire, and both decodings unaltered. */
  lemma FrameParses(m: Mail, pad: seq<byte>, numBoxes: nat)
    requires Sendable(m) && 0 <= m.hdr.to < numBoxes
    ensures var w := Frame(m, pad);
            && |w| >= HeaderSize && DecodeHeader(w) == m.pkt
            && HeaderSize + m.pkt.length <= |w|
            && var buf := w[HeaderSize..HeaderSize + m.pkt.length];
               GoodPacket(m.pkt, buf, numBoxes) && Parse(m.pkt, buf) == m
  {
    var body := EncodeHeader(m.hdr) + m.data;
    var w := Frame(m, pad);
    assert w == EncodeHeader(m.pkt) + (body + pad);
    HeaderRoundTrip(m.pkt, body + pad);
    assert w[HeaderSize..HeaderSize + m.pkt.length] == body;
    HeaderRoundTrip(m.hdr, m.data);
    assert body[HeaderSize..] == m.data;
  }

  // ------------------------------------------------------------------ the system

  /** The postal worker's place in PostalDelivery's loop. */
  datatype Worker = AtTop | Have(pkt: Header, buffer: seq<byte>)

  datatype Net = Net(
    host: int32,                // this machine's address
    wire: seq<seq<byte>>,       // frames in the socket, not read yet
    inHdr: Header,              // NetworkInput::inHdr; length 0 means the inbox is empty
    inbox: seq<byte>,
    worker: Worker,
    boxes: seq<seq<Mail>>,
    flying: seq<Mail>,          // history: the messages framed in `wire`
    tried: seq<Mail>,           // history: every message sent
    carried: seq<Mail>,         // history: those put on the wire
    received: seq<seq<Mail>>)   // history: messages taken from each box, in order

  datatype System = System(k: State, avail: Sid, worker: Tid, n: Net)

  datatype Action =
    | Send(m: Mail, pad: seq<byte>, lost: bool)   // some machine sends to this one
    | Poll                       // NetworkInput::CallBack
    | Await                      // worker: messageAvailable->P()
    | Take                       // worker: back from P; network->Receive(buffer)
    | Deliver                    // worker: boxes[mailHdr.to].Put(...)
    | Get(box: nat)              // a thread takes a message out of a box
    | Background(e: Event)

  predicate PollReads(n: Net) {
    n.inHdr.length == 0 && n.wire != []
  }

  predicate Can(y: System, a: Action) {
    var k, n := y.k, y.n;
    match a
    case Send(m, pad, lost) => Sendable(m) && m.pkt.to == n.host && 0 <= m.hdr.to < |n.boxes|
    case Poll => !k.cpu.Resuming? && y.avail in k.sems
    case Await => RunningFree(k) && k.cpu.t == y.worker && n.worker.AtTop? && y.avail in k.sems
    case Take => Enabled(k, Return) && k.cpu.t == y.worker && k.threads[y.worker].mode == Passed(y.avail) && n.worker.AtTop?
    case Deliver => RunningFree(k) && k.cpu.t == y.worker && n.worker.Have?
    case Get(box) => box < |n.boxes| && n.boxes[box] != [] && |n.received| == |n.boxes|
    case Background(e) => Enabled(k, e) && !Touches(k, e, y.avail)
  }

  /** The asserts and array accesses of the code an action runs. */
  predicate Sound(n: Net, a: Action) {
    match a
    case Poll => PollReads(n) ==>
      && |n.flying| == |n.wire| && |n.wire[0]| >= HeaderSize
      && var hdr := DecodeHeader(n.wire[0]); hdr.to == n.host && 0 <= hdr.length <= MaxPacketSize && HeaderSize + hdr.length <= |n.wire[0]|
    case Take => n.inHdr.length != 0
    case Deliver => n.worker.Have? && GoodPacket(n.worker.pkt, n.worker.buffer, |n.boxes|)
    case Get(box) => box < |n.boxes| && n.boxes[box] != [] && |n.received| == |n.boxes|
    case _ => true
  }

  function NetStep(n: Net, a: Action): Net
    requires Sound(n, a)
  {
    match a
    case Send(m, pad, lost) =>
      if lost then n.(tried := n.tried + [m])
      else n.(tried := n.tried + [m], carried := n.carried + [m], wire := n.wire + [Frame(m, pad)], flying := n.flying + [m])
    case Poll =>
      if !PollReads(n) then n
      else
        var hdr := DecodeHeader(n.wire[0]);
        n.(inHdr := hdr, inbox := n.wire[0][HeaderSize..HeaderSize + hdr.length], wire := n.wire[1..], flying := n.flying[1..])
    case Await => n
    case Take => n.(inHdr := n.inHdr.(length := 0), worker := Have(n.inHdr, n.inbox))
    case Deliver =>
      var m := Parse(n.worker.pkt, n.worker.buffer);
      n.(worker := AtTop, boxes := n.boxes[m.hdr.to := n.boxes[m.hdr.to] + [m]])
    case Get(box) =>
      n.(boxes := n.boxes[box := n.boxes[box][1..]], received := n.received[box := n.received[box] + [n.boxes[box][0]]])
    case Background(_) => n
  }

  ghost function KernelStep(y: System, a: Action): State
    requires Inv(y.k) && Can(y, a)
  {
    match a
    case Poll => if PollReads(y.n) then Step(y.k, HandlerUp(y.avail)) else y.k
    case Await => Step(y.k, Down(y.avail))
    case Take => Step(y.k, Return)
    case Background(e) => Step(y.k, e)
    case _ => y.k
  }

  // ------------------------------------------------------------ the invariant

  /** The messages addressed to one box, in order. */
  function ForBox(box: nat, ms: seq<Mail>): seq<Mail> {
    if ms == [] then []
    else (if ms[0].hdr.to == box then [ms[0]] else []) + ForBox(box, ms[1..])
  }

  /** a can be had by deleting elements of b. */
  predicate Subsequence(a: seq<Mail>, b: seq<Mail>)
    decreases |b|
  {
    a == [] || (b != [] && ((a[0] == b[0] && Subsequence(a[1..], b[1..])) || Subsequence(a, b[1..])))
  }

  function InHand(n: Net): seq<Mail> {
    if n.worker.Have? && |n.worker.buffer| >= HeaderSize then [Parse(n.worker.pkt, n.worker.buffer)] else []
  }

  function InInbox(n: Net): seq<Mail> {
    if n.inHdr.length != 0 && |n.inbox| >= HeaderSize then [Parse(n.inHdr, n.inbox)] else []
  }

  /** messageAvailable's value plus the worker between P and Receive is one exactly when
      the inbox is full. */
  ghost predicate ProtocolInv(v: View, worker: Tid, n: Net) {
    && v.entering <= {worker} && v.past <= {worker} && v.value >= 0
    && v.value + |v.past| == (if n.inHdr.length != 0 then 1 else 0)
    && (v.entering + v.past != {} ==> n.worker.AtTop?)
  }

  ghost predicate IsFrame(w: seq<byte>, m: Mail) {
    exists pad :: w == Frame(m, pad)
  }

  ghost predicate WireInv(n: Net) {
    && |n.wire| == |n.flying|
    && (forall i | 0 <= i < |n.flying| ::
          Sendable(n.flying[i]) && n.flying[i].pkt.to == n.host && 0 <= n.flying[i].hdr.to < |n.boxes|
          && IsFrame(n.wire[i], n.flying[i]))
    && (n.inHdr.length != 0 ==> GoodPacket(n.inHdr, n.inbox, |n.boxes|))
    && (n.worker.Have? ==> GoodPacket(n.worker.pkt, n.worker.buffer, |n.boxes|))
    && Subsequence(n.carried, n.tried)
  }

  /** Nothing is lost, duplicated, altered or reordered after the wire. */
  ghost predicate FlowInv(n: Net) {
    && |n.received| == |n.boxes|
    && forall b | 0 <= b < |n.boxes| :: n.received[b] + n.boxes[b] + ForBox(b, Flow(n)) == ForBox(b, n.carried)
  }

  /** The messages on their way to the boxes, oldest first. */
  function Flow(n: Net): seq<Mail> {
    InHand(n) + InInbox(n) + n.flying
  }

  ghost predicate NetInv(n: Net) {
    WireInv(n) && FlowInv(n)
  }

  ghost predicate SystemInv(y: System) {
    Inv(y.k) && y.avail in y.k.sems && ProtocolInv(ViewOf(y.k, y.avail), y.worker, y.n) && NetInv(y.n)
  }

  // ------------------------------------------------- every action preserves it

  lemma {:induction false} ForBoxAppend(box: nat, a: seq<Mail>, b: seq<Mail>)
    ensures ForBox(box, a + b) == ForBox(box, a) + ForBox(box, b)
  {
    if a == [] {
      assert a + b == b;
    } else {
      assert (a + b)[1..] == a[1..] + b;
      ForBoxAppend(box, a[1..], b);
      var first := if a[0].hdr.to == box then [a[0]] else [];
      assert first + (ForBox(box, a[1..]) + ForBox(box, b)) == (first + ForBox(box, a[1..])) + ForBox(box, b);
    }
  }

  lemma {:induction false} SubsequenceBoth(a: seq<Mail>, b: seq<Mail>, m: Mail)
    requires Subsequence(a, b)
    ensures Subsequence(a + [m], b + [m]) && Subsequence(a, b + [m])
    decreases |b|
  {
    if b == [] {
      assert (a + [m])[1..] == [];
      assert ([] + [m])[0] == m;
    } else {
      assert (b + [m])[1..] == b[1..] + [m];
      if a != [] && a[0] == b[0] && Subsequence(a[1..], b[1..]) {
        SubsequenceBoth(a[1..], b[1..], m);
        assert (a + [m])[1..] == a[1..] + [m];
      } else {
        SubsequenceOfTail(a, b);
        SubsequenceBoth(a, b[1..], m);
      }
    }
  }

  lemma SubsequenceOfTail(a: seq<Mail>, b: seq<Mail>)
    requires Subsequence(a, b) && b != [] && !(a != [] && a[0] == b[0] && Subsequence(a[1..], b[1..]))
    ensures Subsequence(a, b[1..])
  {
  }

  lemma ActionSound(y: System, a: Action)
    requires SystemInv(y) && Can(y, a)
    ensures Sound(y.n, a)
  {
    var n := y.n;
    match a
    case Poll =>
      if PollReads(n) { FirstFrame(n); }
    case Take =>
      assert y.worker in ViewOf(y.k, y.avail).past;
      assert |ViewOf(y.k, y.avail).past| >= 1;
    case _ =>
  }

  lemma FirstFrame(n: Net)
    requires WireInv(n) && n.wire != []
    ensures var w := n.wire[0]; var m := n.flying[0];
            && |w| >= HeaderSize && DecodeHeader(w) == m.pkt && HeaderSize + m.pkt.length <= |w|
            && m.pkt.to == n.host && 0 <= m.pkt.length <= MaxPacketSize
            && var buf := w[HeaderSize..HeaderSize + m.pkt.length];
               GoodPacket(m.pkt, buf, |n.boxes|) && Parse(m.pkt, buf) == m
  {
    var pad :| n.wire[0] == Frame(n.flying[0], pad);
    FrameParses(n.flying[0], pad, |n.boxes|);
  }

  /** The part of Can that the network state alone decides. */
  predicate CanNet(n: Net, a: Action) {
    match a
    case Send(m, _, _) => Sendable(m) && m.pkt.to == n.host && 0 <= m.hdr.to < |n.boxes|
    case Take => n.worker.AtTop?
    case _ => true
  }

  lemma WireKept(n: Net, a: Action)
    requires NetInv(n) && Sound(n, a) && CanNet(n, a)
    ensures WireInv(NetStep(n, a))
  {
    hide DecodeHeader, Frame, FlowInv, Subsequence;
    match a
    case Send(m, pad, lost) => SubsequenceBoth(n.carried, n.tried, m); assert IsFrame(Frame(m, pad), m);
    case Poll => if PollReads(n) { FirstFrame(n); }
    case _ =>
  }

  lemma PollFlow(n: Net)
    requires NetInv(n) && Sound(n, Poll)
    ensures WireInv(NetStep(n, Poll)) && Flow(NetStep(n, Poll)) == Flow(n)
  {
    hide DecodeHeader, Frame, FlowInv, Subsequence;
    WireKept(n, Poll);
    if PollReads(n) {
      FirstFrame(n);
      var n' := NetStep(n, Poll);
      assert InInbox(n') == [n.flying[0]] && n.flying == [n.flying[0]] + n.flying[1..];
      assert InHand(n) + InInbox(n') + n.flying[1..] == InHand(n) + [] + n.flying;
    }
  }

  lemma SendFlow(n: Net, a: Action)
    requires NetInv(n) && a.Send? && CanNet(n, a) && !a.lost
    ensures WireInv(NetStep(n, a)) && Flow(NetStep(n, a)) == Flow(n) + [a.m]
  {
    hide DecodeHeader, Frame, FlowInv, Subsequence;
    WireKept(n, a);
    assert (InHand(n) + InInbox(n) + n.flying) + [a.m] == InHand(n) + InInbox(n) + (n.flying + [a.m]);
  }

  lemma DeliverFlow(n: Net)
    requires NetInv(n) && Sound(n, Deliver)
    ensures WireInv(NetStep(n, Deliver))
    ensures Flow(n) == [Parse(n.worker.pkt, n.worker.buffer)] + Flow(NetStep(n, Deliver))
  {
    hide DecodeHeader, Frame, FlowInv, Subsequence;
    WireKept(n, Deliver);
    assert InHand(n) + InInbox(n) + n.flying == InHand(n) + (InInbox(n) + n.flying);
  }

  lemma FlowKept(n: Net, a: Action)
    requires NetInv(n) && Sound(n, a) && CanNet(n, a)
    ensures NetInv(NetStep(n, a))
  {
    WireKept(n, a);
    var n' := NetStep(n, a);
    forall b | 0 <= b < |n'.boxes|
      ensures n'.received[b] + n'.boxes[b] + ForBox(b, Flow(n')) == ForBox(b, n'.carried) {
      BoxKept(n, a, b);
    }
  }

  /** Regrouping, so that each action's effect on one box is a single rewrite. */
  lemma BoxSend(front: seq<Mail>, flow: seq<Mail>, carried: seq<Mail>, m: Mail, b: nat)
    requires front + ForBox(b, flow) == ForBox(b, carried)
    ensures front + ForBox(b, flow + [m]) == ForBox(b, carried + [m])
  {
    hide ForBox;
    ForBoxAppend(b, flow, [m]);
    ForBoxAppend(b, carried, [m]);
    assert (front + ForBox(b, flow)) + ForBox(b, [m]) == front + (ForBox(b, flow) + ForBox(b, [m]));
  }

  lemma BoxDeliver(received: seq<Mail>, box: seq<Mail>, flow: seq<Mail>, m: Mail, b: nat)
    ensures received + (if m.hdr.to == b then box + [m] else box) + ForBox(b, flow) ==
            received + box + ForBox(b, [m] + flow)
  {
    hide ForBox;
    ForBoxAppend(b, [m], flow);
    OneForBox(b, m);
    assert received + (box + [m]) + ForBox(b, flow) == received + box + ([m] + ForBox(b, flow));
  }

  lemma BoxGet(received: seq<Mail>, box: seq<Mail>)
    requires box != []
    ensures (received + [box[0]]) + box[1..] == received + box
  {
    assert box == [box[0]] + box[1..];
  }

  lemma DeliverKept(n: Net, b: nat)
    requires NetInv(n) && Sound(n, Deliver) && b < |n.boxes|
    ensures var n' := NetStep(n, Deliver);
            && WireInv(n') && |n'.received| == |n'.boxes| == |n.boxes|
            && n'.received[b] + n'.boxes[b] + ForBox(b, Flow(n')) == ForBox(b, n'.carried)
  {
    assert n.received[b] + n.boxes[b] + ForBox(b, Flow(n)) == ForBox(b, n.carried);
    hide ForBox, DecodeHeader, Frame, Subsequence, Flow, FlowInv;
    DeliverFlow(n);
    BoxDeliver(n.received[b], n.boxes[b], Flow(NetStep(n, Deliver)), Parse(n.worker.pkt, n.worker.buffer), b);
  }

  lemma BoxKept(n: Net, a: Action, b: nat)
    requires NetInv(n) && Sound(n, a) && CanNet(n, a) && b < |n.boxes|
    ensures var n' := NetStep(n, a);
            && WireInv(n') && |n'.received| == |n'.boxes| == |n.boxes|
            && n'.received[b] + n'.boxes[b] + ForBox(b, Flow(n')) == ForBox(b, n'.carried)
  {
    assert n.received[b] + n.boxes[b] + ForBox(b, Flow(n)) == ForBox(b, n.carried);
    hide ForBox, DecodeHeader, Frame, Subsequence, Flow, WireInv, FlowInv, GoodPacket;
    WireKept(n, a);
    match a
    case Send(m, _, lost) =>
      if lost {
        assert Flow(NetStep(n, a)) == Flow(n) by { SameFlow(n, NetStep(n, a)); }
      } else {
        SendFlow(n, a);
        BoxSend(n.received[b] + n.boxes[b], Flow(n), n.carried, m, b);
      }
    case Poll => PollFlow(n);
    case Take => TakeFlow(n);
    case Deliver => DeliverKept(n, b);
    case Get(box) =>
      SameFlow(n, NetStep(n, a));
      BoxGet(n.received[box], n.boxes[box]);
    case _ => SameFlow(n, NetStep(n, a));
  }

  lemma SameFlow(n: Net, n': Net)
    requires n'.inHdr == n.inHdr && n'.inbox == n.inbox && n'.worker == n.worker && n'.flying == n.flying
    ensures Flow(n') == Flow(n)
  {
  }

  lemma TakeFlow(n: Net)
    requires NetInv(n) && Sound(n, Take) && CanNet(n, Take)
    ensures WireInv(NetStep(n, Take)) && Flow(NetStep(n, Take)) == Flow(n)
  {
    hide DecodeHeader, Frame, FlowInv, Subsequence;
    WireKept(n, Take);
  }

  lemma OneForBox(b: nat, m: Mail)
    ensures ForBox(b, [m]) == if m.hdr.to == b then [m] else []
  {
    assert [m][1..] == [];
  }

  lemma CanSplits(y: System, a: Action)
    requires Can(y, a)
    ensures CanNet(y.n, a)
  {
  }

  ghost function Next(y: System, a: Action): System
    requires SystemInv(y) && Can(y, a)
  {
    ActionSound(y, a);
    System(KernelStep(y, a), y.avail, y.worker, NetStep(y.n, a))
  }

  // the semaphore's side of each action, on views

  lemma UpProtocol(v: View, worker: Tid, n: Net)
    requires ProtocolInv(v, worker, n) && WireInv(n) && PollReads(n) && Sound(n, Poll)
    ensures ProtocolInv(v.(value := v.value + 1), worker, NetStep(n, Poll))
  {
    FirstFrame(n);
  }

  lemma DownProtocol(v: View, worker: Tid, n: Net)
    requires ProtocolInv(v, worker, n) && n.worker.AtTop? && worker !in v.past && worker !in v.entering
    ensures ProtocolInv(if v.value > 0 then View(v.value - 1, v.entering, v.past + {worker})
                        else View(v.value, v.entering + {worker}, v.past), worker, n)
  {
    assert v.past == {} && v.entering == {};
    assert v.past + {worker} == {worker};
  }

  lemma CompleteProtocol(v: View, worker: Tid, n: Net, t: Tid)
    requires ProtocolInv(v, worker, n) && t in v.entering && t !in v.past && v.value > 0
    ensures ProtocolInv(View(v.value - 1, v.entering - {t}, v.past + {t}), worker, n)
  {
    assert t == worker && v.past == {};
    assert v.past + {t} == {worker};
  }

  lemma TakeProtocol(v: View, worker: Tid, n: Net)
    requires ProtocolInv(v, worker, n) && worker in v.past && worker !in v.entering && n.inHdr.length != 0
    ensures ProtocolInv(v.(past := v.past - {worker}), worker, NetStep(n, Take))
  {
    assert v.past == {worker} && v.entering == {};
    assert v.past - {worker} == {};
  }

  lemma Places(k: State, s: Sid, t: Tid)
    requires s in k.sems && t in k.threads
    ensures k.threads[t].mode.Free? ==> t !in ViewOf(k, s).entering && t !in ViewOf(k, s).past
    ensures k.threads[t].mode == Passed(s) ==> t !in ViewOf(k, s).entering && t in ViewOf(k, s).past
    ensures t in ViewOf(k, s).entering ==> t !in ViewOf(k, s).past
  {
  }

  ghost predicate ProtocolAfter(y: System, a: Action)
    requires SystemInv(y) && Can(y, a)
  {
    var y' := Next(y, a);
    y'.avail in y'.k.sems && ProtocolInv(ViewOf(y'.k, y'.avail), y'.worker, y'.n)
  }

  lemma BackgroundProtocol(y: System, e: Event)
    requires SystemInv(y) && Can(y, Background(e))
    ensures ProtocolAfter(y, Background(e))
  {
    hide Inv, Step, ViewOf, NetInv;
    ObservedFacts(y.k);
    assert y.k.cpu.t in y.k.threads;
    ViewFrame(y.k, e, y.avail);
    if e.Resume? && Completing(y.k) == Some(y.avail) {
      Places(y.k, y.avail, y.k.cpu.t);
      CompleteProtocol(ViewOf(y.k, y.avail), y.worker, y.n, y.k.cpu.t);
    }
  }

  lemma WorkerProtocol(y: System, a: Action)
    requires SystemInv(y) && Can(y, a) && (a.Await? || a.Take?)
    ensures ProtocolAfter(y, a)
  {
    ActionSound(y, a);
    hide Inv, Step, ViewOf, NetInv, ProtocolInv;
    Places(y.k, y.avail, y.worker);
    if a.Await? {
      ViewDown(y.k, y.avail);
      DownProtocol(ViewOf(y.k, y.avail), y.worker, y.n);
    } else {
      ViewReturn(y.k, y.avail);
      TakeProtocol(ViewOf(y.k, y.avail), y.worker, y.n);
    }
  }

  lemma PollProtocol(y: System)
    requires SystemInv(y) && Can(y, Poll)
    ensures ProtocolAfter(y, Poll)
  {
    hide Inv, Step, ViewOf, ProtocolInv, WireInv, FlowInv, Sound;
    ActionSound(y, Poll);
    if PollReads(y.n) {
      ViewUp(y.k, HandlerUp(y.avail));
      UpProtocol(ViewOf(y.k, y.avail), y.worker, y.n);
    }
  }

  lemma PlainProtocol(y: System, a: Action)
    requires SystemInv(y) && Can(y, a) && (a.Send? || a.Deliver? || a.Get?)
    ensures ProtocolAfter(y, a)
  {
    ActionSound(y, a);
    Places(y.k, y.avail, y.k.cpu.t);
    hide Inv, Step, ViewOf, NetInv;
  }

  /** Every action preserves the invariant. */
  lemma NextKeepsInv(y: System, a: Action)
    requires SystemInv(y) && Can(y, a)
    ensures SystemInv(Next(y, a))
  {
    ActionSound(y, a);
    CanSplits(y, a);
    FlowKept(y.n, a);
    KernelKept(y, a);
    hide NetInv, Inv, NetStep, KernelStep, ProtocolInv;
    match a
    case Background(e) => BackgroundProtocol(y, e);
    case Poll => PollProtocol(y);
    case Await => WorkerProtocol(y, a);
    case Take => WorkerProtocol(y, a);
    case _ => PlainProtocol(y, a);
  }

  lemma KernelKept(y: System, a: Action)
    requires Inv(y.k) && Can(y, a)
    ensures Inv(KernelStep(y, a))
  {
    hide Inv, Step;
    match a
    case Poll => if PollReads(y.n) { StepKeepsInv(y.k, HandlerUp(y.avail)); }
    case Await => StepKeepsInv(y.k, Down(y.avail));
    case Take => StepKeepsInv(y.k, Return);
    case Background(e) => StepKeepsInv(y.k, e);
    case _ =>
  }

  // --------------------------------------------------------------- whole runs

  /** A post office just constructed, on a kernel with a fresh semaphore of value 0. */
  ghost predicate Initial(y: System) {
    && Inv(y.k) && y.avail in y.k.sems && ViewOf(y.k, y.avail) == View(0, {}, {})
    && y.n == Net(y.n.host, [], Header(0, 0, 0), [], AtTop, y.n.boxes, [], [], [], y.n.boxes)
    && (forall b | 0 <= b < |y.n.boxes| :: y.n.boxes[b] == [])
  }

  lemma InitialInv(y: System)
    requires Initial(y)
    ensures SystemInv(y)
  {
  }

  ghost predicate ValidRun(y: System, acts: seq<Action>)
    requires SystemInv(y)
    decreases |acts|
  {
    acts == [] || (Can(y, acts[0]) && (NextKeepsInv(y, acts[0]); ValidRun(Next(y, acts[0]), acts[1..])))
  }

  ghost function Exec(y: System, acts: seq<Action>): System
    requires SystemInv(y) && ValidRun(y, acts)
    decreases |acts|
  {
    if acts == [] then y else NextKeepsInv(y, acts[0]); Exec(Next(y, acts[0]), acts[1..])
  }

  ghost predicate Reachable(y: System) {
    exists y0, acts | Initial(y0) && SystemInv(y0) && ValidRun(y0, acts) :: Exec(y0, acts) == y
  }

  lemma {:induction false} ExecKeepsInv(y: System, acts: seq<Action>)
    requires SystemInv(y) && ValidRun(y, acts)
    ensures SystemInv(Exec(y, acts))
    decreases |acts|
  {
    hide SystemInv, Next, Can;
    if acts != [] {
      NextKeepsInv(y, acts[0]);
      ExecKeepsInv(Next(y, acts[0]), acts[1..]);
    }
  }

  lemma ReachableInv(y: System)
    requires Reachable(y)
    ensures SystemInv(y)
  {
    var y0, acts :| Initial(y0) && SystemInv(y0) && ValidRun(y0, acts) && Exec(y0, acts) == y;
    ExecKeepsInv(y0, acts);
  }

  /** For every box, on every run: the messages received are, unaltered, unduplicated and
      in order, the first of those put on the wire for it; and those put on the wire are a
      subsequence of those sent. */
  lemma DeliveryIsFaithful(y: System, box: nat)
    requires Reachable(y) && box < |y.n.boxes|
    ensures box < |y.n.received| && y.n.received[box] <= ForBox(box, y.n.carried)
    ensures Subsequence(y.n.carried, y.n.tried)
  {
    ReachableInv(y);
    hide Inv, Reachable, ProtocolInv, ForBox, Flow, Subsequence, GoodPacket;
    assert y.n.received[box] + y.n.boxes[box] + ForBox(box, Flow(y.n)) == ForBox(box, y.n.carried);
  }

  /** messageAvailable's value plus a worker between P and Receive is one exactly when the
      one-packet inbox is full. */
  lemma InboxMatchesSemaphore(y: System)
    requires Reachable(y)
    ensures y.avail in y.k.sems
    ensures var v := ViewOf(y.k, y.avail); v.value + |v.past| == (if y.n.inHdr.length != 0 then 1 else 0)
  {
    ReachableInv(y);
    hide Inv, Reachable, NetInv, ViewOf;
  }

  /** The worker never receives from an empty inbox, and never finds an illegal message. */
  lemma WorkerAssertionsHold(y: System, a: Action)
    requires Reachable(y) && Can(y, a) && (a.Take? || a.Deliver?)
    ensures a.Take? ==> y.n.inHdr.length != 0
    ensures a.Deliver? ==> GoodPacket(y.n.worker.pkt, y.n.worker.buffer, |y.n.boxes|)
  {
    ReachableInv(y);
    hide SystemInv, Reachable;
    ActionSound(y, a);
  }

  // ------------------------------------------------------------------ progress

  /** Each action moves a message on by a stage: a poll with the inbox empty reads the first
      frame of the wire into it, and the worker takes it out. */
  lemma StagesMove(n: Net)
    requires NetInv(n)
    ensures n.inHdr.length == 0 && n.wire != [] && Sound(n, Poll) ==>
              var n' := NetStep(n, Poll); InInbox(n') == [n.flying[0]] && n'.wire == n.wire[1..]
    ensures n.inHdr.length != 0 && n.worker.AtTop? ==>
              var n' := NetStep(n, Take); InHand(n') == InInbox(n) && |InHand(n')| == 1 && InInbox(n') == []
  {
    hide DecodeHeader, Frame, Subsequence, ForBox, Flow;
    if n.inHdr.length == 0 && n.wire != [] {
      FirstFrame(n);
    }
  }

  /** The worker puts what it has at the end of its box; a thread that gets from a box gets the
      first message. */
  lemma BoxesMove(n: Net, b: nat)
    requires b < |n.boxes|
    ensures Sound(n, Deliver) ==>
              && |InHand(n)| == 1 && 0 <= InHand(n)[0].hdr.to < |n.boxes|
              && var n' := NetStep(n, Deliver);
                 InHand(n') == [] && n'.boxes[b] == n.boxes[b] + if InHand(n)[0].hdr.to == b then InHand(n) else []
    ensures Sound(n, Get(b)) ==>
              && NetStep(n, Get(b)).boxes[b] == n.boxes[b][1..]
              && NetStep(n, Get(b)).received[b] == n.received[b] + [n.boxes[b][0]]
  {
    hide DecodeHeader, Frame, Subsequence, ForBox, Flow;
  }

  /** The worker can take its next step whenever it has the CPU, a poll can happen whenever no
      switch is under way, and a message can be taken from any box that has one. */
  lemma CanGoOn(y: System)
    requires Reachable(y)
    ensures !y.k.cpu.Resuming? ==> Can(y, Poll) && Sound(y.n, Poll)
    ensures RunningFree(y.k) && y.k.cpu.t == y.worker ==> Can(y, if y.n.worker.AtTop? then Await else Deliver)
    ensures y.k.cpu == Running(y.worker) && y.worker in y.k.threads && y.k.threads[y.worker].mode == Passed(y.avail) ==>
              Can(y, Take)
    ensures forall b: nat | b < |y.n.boxes| && y.n.boxes[b] != [] :: Can(y, Get(b))
  {
    hide Reachable, Inv, NetInv;
    ReachableInv(y);
    if !y.k.cpu.Resuming? {
      ActionSound(y, Poll);
    }
    ReceivedBoxes(y.n);
    CpuThread(y.k);
    Places(y.k, y.avail, y.k.cpu.t);
  }

  lemma ReceivedBoxes(n: Net)
    requires NetInv(n)
    ensures |n.received| == |n.boxes|
  {
  }
}
