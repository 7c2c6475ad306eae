/** How long a disk request takes: seeking, rotating, transferring, and the track buffer. */
module DiskTiming {
  const SectorsPerTrack: nat := 32
  const NumTracks: nat := 32
  const NumSectors: nat := SectorsPerTrack * NumTracks
  const RotationTime: nat := 500
  const SeekTime: nat := 500

  type SectorNumber = s: nat | s < NumSectors

  /** The head was last sent to a sector's track, and the track buffer has been filling since. */
  datatype Head = Head(lastSector: SectorNumber, bufferInit: nat)

  function Distance(a: int, b: int): (d: nat) {
    if a < b then b - a else a - b
  }

  function Seek(h: Head, newSector: SectorNumber): (ticks: nat) {
    Distance(newSector / SectorsPerTrack, h.lastSector / SectorsPerTrack) * SeekTime
  }

  /** A seek takes no time exactly within a track, SeekTime to a neighbouring track, the same time
      either way, and along a sweep as much as its parts. */
  lemma SeekLaws(a: SectorNumber, b: SectorNumber, c: SectorNumber, i: nat, j: nat)
    ensures Seek(Head(a, i), b) == 0 <==> a / SectorsPerTrack == b / SectorsPerTrack
    ensures Seek(Head(a, i), b) == Seek(Head(b, j), a)
    ensures b / SectorsPerTrack == a / SectorsPerTrack + 1 ==> Seek(Head(a, i), b) == SeekTime
    ensures a / SectorsPerTrack <= b / SectorsPerTrack <= c / SectorsPerTrack ==>
              Seek(Head(a, i), c) == Seek(Head(a, i), b) + Seek(Head(b, j), c)
  {
  }

  /** The time from the end of the seek to the next sector boundary. */
  function ToBoundary(h: Head, now: nat, newSector: SectorNumber): (ticks: nat)
    ensures ticks < RotationTime
  {
    var over := (now + Seek(h, newSector)) % RotationTime;
    if over > 0 then RotationTime - over else 0
  }

  lemma Turns(a: nat, b: nat, from: nat)
    requires a < SectorsPerTrack && b == from % SectorsPerTrack
    ensures var d := (a - b + SectorsPerTrack) % SectorsPerTrack;
            d == (if a >= b then a - b else a - b + SectorsPerTrack) && (from + d) % SectorsPerTrack == a
  {
    var d := if a >= b then a - b else a - b + SectorsPerTrack;
    assert from + d == from / SectorsPerTrack * SectorsPerTrack + b + d;
  }

  function ModuloDiff(to: nat, from: nat): (d: nat)
    ensures d < SectorsPerTrack && (from + d) % SectorsPerTrack == to % SectorsPerTrack
  {
    Turns(to % SectorsPerTrack, from % SectorsPerTrack, from);
    ((to % SectorsPerTrack - from % SectorsPerTrack) + SectorsPerTrack) % SectorsPerTrack
  }

  function TimeAfter(h: Head, now: nat, newSector: SectorNumber): nat {
    now + Seek(h, newSector) + ToBoundary(h, now, newSector)
  }

  /** C's quotient by a positive number. */
  function Quotient(a: int, b: int): int
    requires b > 0
  {
    if a >= 0 then a / b else -((-a) / b)
  }

  predicate Buffered(h: Head, now: nat, newSector: SectorNumber, writing: bool) {
    && !writing && Seek(h, newSector) == 0
    && Quotient(TimeAfter(h, now, newSector) - h.bufferInit, RotationTime)
         > ModuloDiff(newSector, h.bufferInit / RotationTime)
  }

  function Unbuffered(h: Head, now: nat, newSector: SectorNumber): nat {
    var rotation := ToBoundary(h, now, newSector)
      + ModuloDiff(newSector, TimeAfter(h, now, newSector) / RotationTime) * RotationTime;
    Seek(h, newSector) + rotation + RotationTime
  }

  function ComputeLatency(h: Head, now: nat, newSector: SectorNumber, writing: bool): (ticks: nat) {
    if Buffered(h, now, newSector, writing) then RotationTime else Unbuffered(h, now, newSector)
  }

  // -------------------------------------------------------------- what the times mean

  /** At time t a sector boundary passes the head, and the sector that begins is s. */
  predicate Starts(t: nat, s: nat) {
    t % RotationTime == 0 && (t / RotationTime) % SectorsPerTrack == s % SectorsPerTrack
  }

  lemma AtBoundary(h: Head, now: nat, newSector: SectorNumber)
    ensures TimeAfter(h, now, newSector) % RotationTime == 0
    ensures forall t: nat | t >= now + Seek(h, newSector) && t % RotationTime == 0 :: t >= TimeAfter(h, now, newSector)
  {
    hide Seek;
    var x := now + Seek(h, newSector);
    forall t: nat | t >= x && t % RotationTime == 0 ensures t >= TimeAfter(h, now, newSector) {
      assert t / RotationTime * RotationTime == t;
    }
  }

  lemma Later(t: nat, d: nat)
    requires t % RotationTime == 0
    ensures (t + d * RotationTime) % RotationTime == 0 && (t + d * RotationTime) / RotationTime == t / RotationTime + d
  {
  }

  /** A request that the track buffer cannot serve is transferred from the first moment after
      the seek at which its sector begins to pass the head. */
  lemma TransferStartsOnTime(h: Head, now: nat, newSector: SectorNumber)
    ensures var start := now + Unbuffered(h, now, newSector) - RotationTime;
            && start >= now + Seek(h, newSector) && Starts(start, newSector)
            && forall t: nat | t >= now + Seek(h, newSector) && Starts(t, newSector) :: t >= start
  {
    AtBoundary(h, now, newSector);
    var after := TimeAfter(h, now, newSector);
    var d := ModuloDiff(newSector, after / RotationTime);
    var start := after + d * RotationTime;
    Later(after, d);
    assert start == now + Unbuffered(h, now, newSector) - RotationTime;
    hide Seek, ToBoundary, TimeAfter, ModuloDiff, Unbuffered;
    forall t: nat | t >= now + Seek(h, newSector) && Starts(t, newSector) ensures t >= start {
      Nearest(after / RotationTime, t / RotationTime, d, newSector);
      assert t == t / RotationTime * RotationTime;
      assert after == after / RotationTime * RotationTime;
    }
  }

  /** The nearest turn at or after q with the right sector is d turns away. */
  lemma Nearest(q: nat, r: nat, d: nat, s: nat)
    requires q <= r && d < SectorsPerTrack
    requires (q + d) % SectorsPerTrack == s % SectorsPerTrack == r % SectorsPerTrack
    ensures q + d <= r
  {
  }

  /** A request takes one sector's time if the buffer has it, and otherwise until its sector has
      been transferred. */
  lemma LatencyIs(h: Head, now: nat, newSector: SectorNumber, writing: bool, start: nat)
    requires h.bufferInit % RotationTime == 0 && h.bufferInit <= TimeAfter(h, now, newSector)
    requires start >= now + Seek(h, newSector) && Starts(start, newSector)
    requires forall t: nat | t >= now + Seek(h, newSector) && Starts(t, newSector) :: t >= start
    ensures var read := && !writing && newSector / SectorsPerTrack == h.lastSector / SectorsPerTrack
                        && exists t: nat :: t >= h.bufferInit && Starts(t, newSector) && t + RotationTime <= TimeAfter(h, now, newSector);
            now + ComputeLatency(h, now, newSector, writing) == (if read then now else start) + RotationTime
  {
    hide Seek, Starts, Unbuffered, Buffered, TimeAfter;
    TransferStartsOnTime(h, now, newSector);
    BufferedIffRead(h, now, newSector, writing);
  }

  /** Bounds on the latency; the buffer never makes a request slower, and Schedule never
      refuses one. */
  lemma LatencyBounds(h: Head, now: nat, newSector: SectorNumber, writing: bool)
    ensures RotationTime <= ComputeLatency(h, now, newSector, writing) <= Unbuffered(h, now, newSector)
    ensures Unbuffered(h, now, newSector) <= SeekTime * (NumTracks - 1) + RotationTime * (SectorsPerTrack + 1) - 1
    ensures ComputeLatency(h, now, newSector, writing) > 0
  {
    hide Buffered, ModuloDiff, TimeAfter;
    TrackBound(newSector);
    TrackBound(h.lastSector);
    hide ToBoundary;
  }

  lemma TrackBound(s: SectorNumber)
    ensures s / SectorsPerTrack <= NumTracks - 1
  {
  }

  /** The track buffer serves exactly the reads on the current track whose sector has passed
      the head completely since the buffer began to fill. */
  lemma BufferedIffRead(h: Head, now: nat, newSector: SectorNumber, writing: bool)
    requires h.bufferInit % RotationTime == 0 && h.bufferInit <= TimeAfter(h, now, newSector)
    ensures Buffered(h, now, newSector, writing) <==>
            && !writing && newSector / SectorsPerTrack == h.lastSector / SectorsPerTrack
            && exists t: nat :: t >= h.bufferInit && Starts(t, newSector) && t + RotationTime <= TimeAfter(h, now, newSector)
  {
    AtBoundary(h, now, newSector);
    SeekLaws(h.lastSector, newSector, newSector, h.bufferInit, 0);
    assert h == Head(h.lastSector, h.bufferInit);
    var after, init := TimeAfter(h, now, newSector), h.bufferInit;
    var d := ModuloDiff(newSector, init / RotationTime);
    hide Seek, ToBoundary, TimeAfter, ModuloDiff;
    Later(init, d);
    var first := init + d * RotationTime;
    assert Starts(first, newSector);
    assert Quotient(after - init, RotationTime) > d <==> first + RotationTime <= after;
    forall t: nat | t >= init && Starts(t, newSector) ensures t >= first {
      Nearest(init / RotationTime, t / RotationTime, d, newSector);
      assert t == t / RotationTime * RotationTime && init == init / RotationTime * RotationTime;
    }
  }

  // -------------------------------------------------------------- the disk

  class Disk {
    var head: Head
    var active: bool
    ghost var doneAt: nat             // when the latest request completes

    constructor ()
      ensures Valid() && head == Head(0, 0) && !active && doneAt == 0
    {
      head, active, doneAt := Head(0, 0), false, 0;
    }

    /** The buffer starts at a sector boundary, before the request that set it completes. */
    ghost predicate Valid()
      reads this
    {
      head.bufferInit % RotationTime == 0 && head.bufferInit <= doneAt
    }

    method UpdateLast(newSector: SectorNumber, now: nat)
      requires Valid()
      modifies this`head
      ensures head.bufferInit % RotationTime == 0 && head.lastSector == newSector
      ensures head.bufferInit == if Seek(old(head), newSector) != 0 then TimeAfter(old(head), now, newSector) else old(head).bufferInit
    {
      AtBoundary(head, now, newSector);
      var bufferInit := head.bufferInit;
      if Seek(head, newSector) != 0 {
        bufferInit := now + Seek(head, newSector) + ToBoundary(head, now, newSector);
      }
      head := Head(newSector, bufferInit);
    }

    /** A read or write request, once the one before has completed: the delay to schedule its
        interrupt with. */
    method Request(newSector: SectorNumber, writing: bool, now: nat) returns (ticks: nat)
      requires Valid() && !active && doneAt <= now
      modifies this
      ensures Valid() && active && head.lastSector == newSector && doneAt == now + ticks
      ensures ticks == ComputeLatency(old(head), now, newSector, writing) && ticks > 0
      ensures old(head).bufferInit <= TimeAfter(old(head), now, newSector)
    {
      LatencyBounds(head, now, newSector, writing);
      ticks := ComputeLatency(head, now, newSector, writing);
      active := true;
      UpdateLast(newSector, now);
      doneAt := now + ticks;
    }

    method CallBack()
      requires Valid() && active
      modifies this`active
      ensures Valid() && !active
    {
      active := false;
    }
  }
}
