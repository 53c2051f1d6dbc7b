/** How long a disk request takes (machine/disk.cc): the completion interrupt comes exactly when the
    head has passed over the whole sector for the first time after the seek. */
module DiskTiming {

  const SECTORS_PER_TRACK: nat := 32
  const ROTATION_TIME: nat := 500   // ticks to rotate past one sector
  const SEEK_TIME: nat := 500       // ticks to seek past one track

  /** The sector requested last, and when the track buffer began to fill. */
  datatype Head = Head(lastSector: nat, bufferInit: nat)

  function Seek(head: Head, newSector: nat): nat {
    var newTrack, oldTrack := newSector / SECTORS_PER_TRACK, head.lastSector / SECTORS_PER_TRACK;
    (if newTrack >= oldTrack then newTrack - oldTrack else oldTrack - newTrack) * SEEK_TIME
  }

  /** The ticks until the next sector boundary after the seek. */
  function Rotation(now: nat, seek: nat): (r: nat)
    ensures (now + seek + r) % ROTATION_TIME == 0 && r < ROTATION_TIME
  {
    var over := (now + seek) % ROTATION_TIME;
    if over > 0 then ROTATION_TIME - over else 0
  }

  /** Sectors to pass from one position on the track to another, whatever the track. */
  function ModuloDiff(to: nat, from: nat): (r: nat)
    ensures r < SECTORS_PER_TRACK && (from + r) % SECTORS_PER_TRACK == to % SECTORS_PER_TRACK
  {
    ((to % SECTORS_PER_TRACK - from % SECTORS_PER_TRACK) + SECTORS_PER_TRACK) % SECTORS_PER_TRACK
  }

  /** The request can be served from the track buffer. */
  predicate Buffered(now: nat, head: Head, newSector: nat, writing: bool)
    requires head.bufferInit <= now
  {
    var seek := Seek(head, newSector);
    var timeAfter := now + seek + Rotation(now, seek);
    !writing && seek == 0
    && (timeAfter - head.bufferInit) / ROTATION_TIME > ModuloDiff(newSector, head.bufferInit / ROTATION_TIME)
  }

  function ComputeLatency(now: nat, head: Head, newSector: nat, writing: bool): nat
    requires head.bufferInit <= now
  {
    var seek := Seek(head, newSector);
    var rotation := Rotation(now, seek);
    var timeAfter := now + seek + rotation;
    if Buffered(now, head, newSector, writing) then ROTATION_TIME
    else seek + rotation + ModuloDiff(newSector, timeAfter / ROTATION_TIME) * ROTATION_TIME + ROTATION_TIME
  }

  function UpdateLast(now: nat, head: Head, newSector: nat): Head {
    var seek := Seek(head, newSector);
    Head(newSector, if seek != 0 then now + seek + Rotation(now, seek) else head.bufferInit)
  }

  /** At time t the head has just passed over the whole of the sector. */
  predicate JustPassed(t: nat, sector: nat) {
    t >= ROTATION_TIME && t % ROTATION_TIME == 0
      && (t / ROTATION_TIME - 1) % SECTORS_PER_TRACK == sector % SECTORS_PER_TRACK
  }

  /** A latency is never zero, which Interrupt::Schedule asserts; and when the next request comes,
      which is after the interrupt, the track buffer began to fill in the past. */
  lemma LatencyIsPositive(now: nat, head: Head, newSector: nat, writing: bool)
    requires head.bufferInit <= now
    ensures ComputeLatency(now, head, newSector, writing) >= ROTATION_TIME > 0
    ensures UpdateLast(now, head, newSector).bufferInit <= now + ComputeLatency(now, head, newSector, writing)
  {}

  /** The first position from a on with the residue of a + d is a + d itself. */
  lemma FirstSlot(a: nat, b: nat, d: nat)
    requires a <= b && (a + d) % SECTORS_PER_TRACK == b % SECTORS_PER_TRACK && d < SECTORS_PER_TRACK
    ensures a + d <= b
  {}

  /** Without the track buffer the interrupt comes just after the head has passed the sector, and
      that is the first such moment at least one sector after the end of the seek. */
  lemma HeadArrives(now: nat, head: Head, newSector: nat, writing: bool)
    requires head.bufferInit <= now && !Buffered(now, head, newSector, writing)
    ensures JustPassed(now + ComputeLatency(now, head, newSector, writing), newSector)
    ensures forall t :: now + Seek(head, newSector) + ROTATION_TIME <= t && JustPassed(t, newSector) ==>
      now + ComputeLatency(now, head, newSector, writing) <= t
  {
    var seek := Seek(head, newSector);
    var timeAfter := now + seek + Rotation(now, seek);
    var slot := timeAfter / ROTATION_TIME;
    var d := ModuloDiff(newSector, slot);
    assert now + ComputeLatency(now, head, newSector, writing) == (slot + d + 1) * ROTATION_TIME;
    forall t: nat | now + seek + ROTATION_TIME <= t && JustPassed(t, newSector)
      ensures slot + d + 1 <= t / ROTATION_TIME
    {
      NotEarlier(slot, d, newSector, t);
    }
  }

  /** No earlier moment than d + 1 sectors after slot will do. */
  lemma NotEarlier(slot: nat, d: nat, sector: nat, t: nat)
    requires d == ModuloDiff(sector, slot) && (slot + 1) * ROTATION_TIME <= t && JustPassed(t, sector)
    ensures slot + d + 1 <= t / ROTATION_TIME
  {
    FirstSlot(slot, t / ROTATION_TIME - 1, d);
  }

  /** The track buffer begins to fill at a sector boundary. */
  predicate Aligned(head: Head) { head.bufferInit % ROTATION_TIME == 0 }

  /** The head passes over the whole sector between two times. */
  ghost predicate PassedBetween(sector: nat, from: nat, to: nat) {
    exists t :: from + ROTATION_TIME <= t <= to && JustPassed(t, sector)
  }

  /** A request is served from the track buffer exactly when it is a read on the same track and the head
      has passed over the whole sector since the buffer began to fill, up to the next boundary; and
      the buffer goes on beginning at boundaries. */
  lemma BufferedIff(now: nat, head: Head, newSector: nat, writing: bool)
    requires head.bufferInit <= now && Aligned(head)
    ensures Buffered(now, head, newSector, writing) <==>
      !writing && Seek(head, newSector) == 0 && PassedBetween(newSector, head.bufferInit, now + Rotation(now, 0))
    ensures Aligned(UpdateLast(now, head, newSector))
  {
    var end := now + Rotation(now, 0);
    var b, e := head.bufferInit / ROTATION_TIME, end / ROTATION_TIME;
    var d := ModuloDiff(newSector, b);
    assert (end - head.bufferInit) / ROTATION_TIME == e - b;
    if e - b > d {
      var t := (b + d + 1) * ROTATION_TIME;
      assert t / ROTATION_TIME == b + d + 1 && t % ROTATION_TIME == 0;
      assert JustPassed(t, newSector);
    }
    if t :| head.bufferInit + ROTATION_TIME <= t <= end && JustPassed(t, newSector) {
      FirstSlot(b, t / ROTATION_TIME - 1, d);
    }
  }

  /** The ticks of a seek from one sector's track to that of another. */
  function Travel(from: nat, to: nat): nat {
    500 * if to / 32 >= from / 32 then to / 32 - from / 32 else from / 32 - to / 32
  }

  /** How long a request made at time now takes. A read on the same track whose sector the head has passed over
      since the buffer began to fill, at the latest at the next sector boundary, takes the time of one sector; any
      other request ends with the first moment, a sector's time or more after the seek, at which the head has just
      passed over the whole sector. */
  lemma LatencyIs(now: nat, head: Head, newSector: nat, writing: bool)
    requires head.bufferInit <= now && Aligned(head)
    ensures var done, seek := now + ComputeLatency(now, head, newSector, writing), Travel(head.lastSector, newSector);
      if !writing && seek == 0 && PassedBetween(newSector, head.bufferInit, now + 499) then done == now + 500
      else
        && JustPassed(done, newSector) && done >= now + seek + 500
        && forall t :: now + seek + 500 <= t && JustPassed(t, newSector) ==> done <= t
  {
    BufferedIff(now, head, newSector, writing);
    BoundaryBefore(newSector, head.bufferInit, now);
    if !Buffered(now, head, newSector, writing) { HeadArrives(now, head, newSector, writing); }
  }

  /** The next sector boundary is less than one sector's time away. */
  lemma BoundaryBefore(sector: nat, from: nat, now: nat)
    ensures PassedBetween(sector, from, now + Rotation(now, 0)) == PassedBetween(sector, from, now + 499)
  {
    forall t: nat | JustPassed(t, sector) ensures t <= now + Rotation(now, 0) <==> t <= now + 499 {}
  }

  /** After a request the head is at the new sector. The buffer goes on filling on the same track, and begins anew
      at the first sector boundary after a seek to another. */
  lemma HeadMoves(now: nat, head: Head, newSector: nat)
    requires Aligned(head)
    ensures var h, arrival := UpdateLast(now, head, newSector), now + Travel(head.lastSector, newSector);
      && h.lastSector == newSector && Aligned(h)
      && if head.lastSector / 32 == newSector / 32 then h.bufferInit == head.bufferInit
         else arrival <= h.bufferInit < arrival + 500
  {}
}
