/** code/machine/disk.cc: how long a disk request takes.  The head seeks one track per
    SEEK_TIME ticks and the disk turns one sector per ROTATION_TIME ticks; a track
    buffer holds what has passed under the head since the last seek ended. */
module DiskDevices {
  import opened DiskLayout

  const SECTORS_PER_TRACK: nat := 32
  const ROTATION_TIME: nat := 500
  const SEEK_TIME: nat := 500

  function Track(sector: nat): nat {
    sector / 32
  }

  /** Ticks until the head is over the right track, and from there to the next sector boundary. */
  function TimeToSeek(newSector: nat, lastSector: nat, now: nat): (r: (nat, nat))
    ensures (now + r.0 + r.1) % 500 == 0 && r.1 < 500
    ensures r.0 == 0 <==> Track(newSector) == Track(lastSector)
    ensures r.0 == 500 * (Track(newSector) - Track(lastSector)) || r.0 == 500 * (Track(lastSector) - Track(newSector))
  {
    var newTrack, oldTrack := Track(newSector), Track(lastSector);
    var seek := (if newTrack >= oldTrack then newTrack - oldTrack else oldTrack - newTrack) * SEEK_TIME;
    var over := (now + seek) % ROTATION_TIME;
    (seek, if over > 0 then ROTATION_TIME - over else 0)
  }

  /** 500 ticks for every track in between, whichever way the head goes. */
  lemma SeekDistance(a: nat, b: nat, t: nat, u: nat, tracks: nat)
    requires b / 32 == a / 32 + tracks
    ensures TimeToSeek(a, b, t).0 == TimeToSeek(b, a, u).0 == 500 * tracks
  {
  }

  /** Sectors to wait, from position `from`, until `to` comes by. */
  function ModuloDiff(to: nat, from: nat): (d: nat)
    ensures d < 32 && (from + d) % 32 == to % 32
  {
    WaitIsRight(to / 32, to % 32, from / 32, from % 32);
    ((to % SECTORS_PER_TRACK - from % SECTORS_PER_TRACK) + SECTORS_PER_TRACK) % SECTORS_PER_TRACK
  }

  lemma WaitIsRight(p: nat, a: nat, q: nat, b: nat)
    requires a < 32 && b < 32
    ensures var d := ((a - b) + 32) % 32; 0 <= d < 32 && (q * 32 + b + d) % 32 == a == (p * 32 + a) % 32
  {
    var d := ((a - b) + 32) % 32;
    assert d == if a >= b then a - b else a - b + 32;
  }

  predicate FromTrackBuffer(newSector: nat, writing: bool, lastSector: nat, bufferInit: nat, now: nat)
    requires bufferInit <= now
  {
    var (seek, rotation) := TimeToSeek(newSector, lastSector, now);
    var timeAfter := now + seek + rotation;
    !writing && seek == 0
    && (timeAfter - bufferInit) / ROTATION_TIME > ModuloDiff(newSector, bufferInit / ROTATION_TIME)
  }

  function ComputeLatency(newSector: nat, writing: bool, lastSector: nat, bufferInit: nat, now: nat): nat
    requires bufferInit <= now
  {
    var (seek, rotation) := TimeToSeek(newSector, lastSector, now);
    var timeAfter := now + seek + rotation;
    if FromTrackBuffer(newSector, writing, lastSector, bufferInit, now) then ROTATION_TIME
    else seek + rotation + ModuloDiff(newSector, timeAfter / ROTATION_TIME) * ROTATION_TIME + ROTATION_TIME
  }

  // ----- what the numbers mean -----

  /** At time `t` the start of the sector comes under the head, on whichever track that is. */
  predicate Starts(sector: nat, t: nat) {
    t % 500 == 0 && (t / 500) % 32 == sector % 32
  }

  /** The wait ends at the first start of the sector, counting from sector boundary `t`. */
  lemma FirstStart(sector: nat, t: nat)
    requires t % 500 == 0
    ensures var s := t + ModuloDiff(sector, t / 500) * 500;
      Starts(sector, s) && forall u :: t <= u < s ==> !Starts(sector, u)
  {
    var k, d := t / 500, ModuloDiff(sector, t / 500);
    assert t + d * 500 == (k + d) * 500;
    forall u | t <= u < t + d * 500 ensures !Starts(sector, u) {
      if u % 500 == 0 {
        NoEarlier(sector, k, u / 500);
      }
    }
  }

  lemma NoEarlier(sector: nat, k: nat, j: nat)
    requires k <= j < k + ModuloDiff(sector, k)
    ensures j % 32 != sector % 32
  {
  }

  /** The buffer test is exact: it holds just when the sector passed whole under the head
      between the start of the buffer and the next sector boundary. */
  lemma BufferTestExact(newSector: nat, lastSector: nat, bufferInit: nat, now: nat)
    requires bufferInit <= now && bufferInit % 500 == 0 && Track(newSector) == Track(lastSector)
    ensures var timeAfter := now + TimeToSeek(newSector, lastSector, now).1;
      FromTrackBuffer(newSector, false, lastSector, bufferInit, now) <==>
      exists t :: bufferInit <= t && t + 500 <= timeAfter && Starts(newSector, t)
  {
    var timeAfter := now + TimeToSeek(newSector, lastSector, now).1;
    var s := bufferInit + ModuloDiff(newSector, bufferInit / 500) * 500;
    FirstStart(newSector, bufferInit);
    assert FromTrackBuffer(newSector, false, lastSector, bufferInit, now) <==> s + 500 <= timeAfter;
    if t :| bufferInit <= t && t + 500 <= timeAfter && Starts(newSector, t) {
      assert s <= t;
    }
  }

  /** Any other request is done when the sector has gone by once, the first time it can. */
  lemma EarliestPass(newSector: nat, writing: bool, lastSector: nat, bufferInit: nat, now: nat)
    requires bufferInit <= now && !FromTrackBuffer(newSector, writing, lastSector, bufferInit, now)
    ensures var arrival := now + TimeToSeek(newSector, lastSector, now).0;
      var start := now + ComputeLatency(newSector, writing, lastSector, bufferInit, now) - 500;
      arrival <= start && Starts(newSector, start) && forall u :: arrival <= u < start ==> !Starts(newSector, u)
  {
    hide FromTrackBuffer, ModuloDiff, TimeToSeek;
    var (seek, rotation) := TimeToSeek(newSector, lastSector, now);
    FirstStart(newSector, now + seek + rotation);
    NoBoundary(now + seek, rotation);
  }

  lemma NoBoundary(t: nat, rotation: nat)
    requires (t + rotation) % 500 == 0 && rotation < 500
    ensures forall u :: t <= u < t + rotation ==> u % 500 != 0
  {
  }

  lemma LatencyBounds(newSector: nat, writing: bool, lastSector: nat, bufferInit: nat, now: nat)
    requires bufferInit <= now && newSector < NUM_SECTORS && lastSector < NUM_SECTORS
    ensures 500 <= ComputeLatency(newSector, writing, lastSector, bufferInit, now) <= 31999
    ensures ComputeLatency(newSector, false, lastSector, bufferInit, now)
         <= ComputeLatency(newSector, true, lastSector, bufferInit, now)
  {
    var (seek, rotation) := TimeToSeek(newSector, lastSector, now);
    assert Track(newSector) < 32 && Track(lastSector) < 32 && seek <= 31 * 500;
  }

  /** The longest wait is possible. */
  lemma LatencyBoundMet()
    ensures ComputeLatency(1023, true, 0, 0, 1) == 31999
  {
    assert TimeToSeek(1023, 0, 1) == (15500, 499);
    assert ModuloDiff(1023, 32) == 31;
  }

  // ----- the device -----

  /** The head left for `track` and got there. */
  datatype Move = Move(leaves: nat, arrives: nat, track: nat)

  /** A request, and the time its sector began the pass that serves it. */
  datatype Service = Service(sector: nat, writing: bool, asked: nat, pass: nat, done: nat)

  /** The head stays on the track from `t` to `u`. */
  ghost predicate Rests(moves: seq<Move>, track: nat, t: nat, u: nat) {
    exists i :: 0 <= i < |moves| && RestsAfter(moves, i, track, t, u)
  }

  predicate RestsAfter(moves: seq<Move>, i: nat, track: nat, t: nat, u: nat)
    requires i < |moves|
  {
    moves[i].track == track && moves[i].arrives <= t && (i + 1 < |moves| ==> u <= moves[i + 1].leaves)
  }

  /** The sector went by whole under a head resting on its track, in time; for a write,
      after the request was made. */
  ghost predicate IsServed(moves: seq<Move>, s: Service) {
    && Starts(s.sector, s.pass)
    && Rests(moves, Track(s.sector), s.pass, s.pass + 500)
    && s.pass + 500 <= s.done
    && (s.writing ==> s.asked <= s.pass)
  }

  lemma ServedStill(moves: seq<Move>, m: Move, s: Service)
    requires IsServed(moves, s) && s.done <= m.leaves
    ensures IsServed(moves + [m], s)
  {
    var i :| 0 <= i < |moves| && RestsAfter(moves, i, Track(s.sector), s.pass, s.pass + 500);
    assert RestsAfter(moves + [m], i, Track(s.sector), s.pass, s.pass + 500);
  }

  /** When the request in hand began to be served: now, or earlier out of the buffer. */
  ghost function PassOf(newSector: nat, writing: bool, lastSector: nat, bufferInit: nat, now: nat): nat
    requires bufferInit <= now
  {
    if FromTrackBuffer(newSector, writing, lastSector, bufferInit, now)
    then bufferInit + ModuloDiff(newSector, bufferInit / 500) * 500
    else now + ComputeLatency(newSector, writing, lastSector, bufferInit, now) - 500
  }

  ghost function MovesAfter(moves: seq<Move>, newSector: nat, lastSector: nat, now: nat): seq<Move> {
    var seek := TimeToSeek(newSector, lastSector, now).0;
    if seek == 0 then moves else moves + [Move(now, now + seek, Track(newSector))]
  }

  ghost function ServiceOf(newSector: nat, writing: bool, lastSector: nat, bufferInit: nat, now: nat): Service
    requires bufferInit <= now
  {
    Service(newSector, writing, now, PassOf(newSector, writing, lastSector, bufferInit, now),
            now + ComputeLatency(newSector, writing, lastSector, bufferInit, now))
  }

  /** The head is on the last sector's track, and the buffer was started at the first
      sector boundary after it arrived there. */
  ghost predicate HeadOk(moves: seq<Move>, lastSector: nat, bufferInit: nat) {
    && moves != [] && bufferInit % 500 == 0
    && moves[|moves| - 1].track == Track(lastSector)
    && moves[|moves| - 1].arrives <= bufferInit < moves[|moves| - 1].arrives + 500
  }

  lemma RequestServed(moves: seq<Move>, newSector: nat, writing: bool, lastSector: nat, bufferInit: nat, now: nat)
    requires HeadOk(moves, lastSector, bufferInit) && bufferInit <= now
    ensures IsServed(MovesAfter(moves, newSector, lastSector, now),
                     ServiceOf(newSector, writing, lastSector, bufferInit, now))
  {
    var moves', s := MovesAfter(moves, newSector, lastSector, now),
                     ServiceOf(newSector, writing, lastSector, bufferInit, now);
    if FromTrackBuffer(newSector, writing, lastSector, bufferInit, now) {
      FirstStart(newSector, bufferInit);
    } else {
      EarliestPass(newSector, writing, lastSector, bufferInit, now);
    }
    assert RestsAfter(moves', |moves'| - 1, Track(newSector), s.pass, s.pass + 500);
  }

  class Disk {
    var active: bool
    var lastSector: nat
    var bufferInit: nat
    var totalTicks: nat
    var sectors: Image
    var completed: nat  // how often the handler was called
    ghost var moves: seq<Move>
    ghost var log: seq<Service>

    ghost function BusyUntil(): nat
      reads this
    {
      if log == [] then 0 else log[|log| - 1].done
    }

    /** Every request so far was served by a real pass of its sector, and the next one
        cannot come before the last is done.  The handler was called once for each. */
    ghost predicate Valid()
      reads this
    {
      && lastSector < NUM_SECTORS && HeadOk(moves, lastSector, bufferInit)
      && bufferInit <= BusyUntil()
      && (!active ==> BusyUntil() <= totalTicks)
      && |log| == completed + (if active then 1 else 0)
      && (forall i :: 0 <= i < |log| ==> IsServed(moves, log[i]) && log[i].done <= BusyUntil())
    }

    constructor (image: Image)
      ensures Valid() && !active && sectors == image && totalTicks == 0 && log == []
    {
      active, lastSector, bufferInit, totalTicks, sectors, completed := false, 0, 0, 0, image, 0;
      moves, log := [Move(0, 0, 0)], [];
    }

    /** The head moves exactly when the track changes, and the buffer then starts afresh. */
    method UpdateLast(newSector: nat)
      requires HeadOk(moves, lastSector, bufferInit)
      modifies this`lastSector, this`bufferInit, this`moves
      ensures lastSector == newSector && HeadOk(moves, lastSector, bufferInit)
      ensures Track(newSector) == Track(old(lastSector)) ==> moves == old(moves) && bufferInit == old(bufferInit)
      ensures Track(newSector) != Track(old(lastSector)) ==> moves == MovesAfter(old(moves), newSector, old(lastSector), totalTicks)
    {
      moves := MovesAfter(moves, newSector, lastSector, totalTicks);
      var (seek, rotate) := TimeToSeek(newSector, lastSector, totalTicks);
      if seek != 0 {
        bufferInit := totalTicks + seek + rotate;
      }
      lastSector := newSector;
    }

    /** Enters a request that UpdateLast has just taken in; the head was at `last` before. */
    ghost method Record(newSector: nat, writing: bool, last: nat, init: nat, was: seq<Move>)
      requires active && lastSector == newSector < NUM_SECTORS && init <= BusyUntil() <= totalTicks
      requires HeadOk(was, last, init) && moves == MovesAfter(was, newSector, last, totalTicks)
      requires HeadOk(moves, lastSector, bufferInit) && (moves == was ==> bufferInit == init)
      requires completed == |log|
      requires forall i :: 0 <= i < |log| ==> IsServed(was, log[i]) && log[i].done <= BusyUntil()
      modifies this`log
      ensures Valid() && log == old(log) + [ServiceOf(newSector, writing, last, init, totalTicks)]
    {
      hide IsServed, FromTrackBuffer;
      RequestServed(was, newSector, writing, last, init, totalTicks);
      forall i | 0 <= i < |log| ensures IsServed(moves, log[i]) {
        ServedStill(was, Move(totalTicks, totalTicks + TimeToSeek(newSector, last, totalTicks).0, Track(newSector)), log[i]);
      }
      AfterSeek(newSector, writing, last, init, totalTicks);
      log := log + [ServiceOf(newSector, writing, last, init, totalTicks)];
    }

    /** Reads the sector at once; the interrupt that says so comes `ticks` later. */
    method ReadRequest(sectorNumber: nat) returns (data: Sector, ticks: nat)
      requires Valid() && !active && sectorNumber < NUM_SECTORS
      modifies this
      ensures Valid() && active && totalTicks == old(totalTicks) && sectors == old(sectors)
      ensures data == sectors[sectorNumber] && 500 <= ticks <= 31999
      ensures BusyUntil() == totalTicks + ticks
      ensures lastSector == sectorNumber
      ensures log == old(log) + [ServiceOf(sectorNumber, false, old(lastSector), old(bufferInit), totalTicks)]
    {
      ticks := ComputeLatency(sectorNumber, false, lastSector, bufferInit, totalTicks);
      LatencyBounds(sectorNumber, false, lastSector, bufferInit, totalTicks);
      data := sectors[sectorNumber];
      active := true;
      UpdateLast(sectorNumber);
      Record(sectorNumber, false, old(lastSector), old(bufferInit), old(moves));
    }

    method WriteRequest(sectorNumber: nat, data: Sector) returns (ticks: nat)
      requires Valid() && !active && sectorNumber < NUM_SECTORS
      modifies this
      ensures Valid() && active && totalTicks == old(totalTicks)
      ensures sectors == old(sectors)[sectorNumber := data] && 500 <= ticks <= 31999
      ensures BusyUntil() == totalTicks + ticks
      ensures lastSector == sectorNumber
      ensures log == old(log) + [ServiceOf(sectorNumber, true, old(lastSector), old(bufferInit), totalTicks)]
    {
      ticks := ComputeLatency(sectorNumber, true, lastSector, bufferInit, totalTicks);
      LatencyBounds(sectorNumber, true, lastSector, bufferInit, totalTicks);
      sectors := sectors[sectorNumber := data];
      active := true;
      UpdateLast(sectorNumber);
      Record(sectorNumber, true, old(lastSector), old(bufferInit), old(moves));
    }

    /** The clock never fires the interrupt early. */
    method HandleInterrupt()
      requires Valid() && active && BusyUntil() <= totalTicks
      modifies this`active, this`completed
      ensures Valid() && !active && bufferInit <= totalTicks && bufferInit % ROTATION_TIME == 0
      ensures completed == |log|
    {
      active := false;
      completed := completed + 1;
    }

    method Advance(ticks: nat)
      requires Valid()
      modifies this`totalTicks
      ensures Valid() && totalTicks == old(totalTicks) + ticks
    {
      totalTicks := totalTicks + ticks;
    }
  }

  /** A request is not done until a sector has gone by after the seek. */
  lemma AfterSeek(newSector: nat, writing: bool, lastSector: nat, bufferInit: nat, now: nat)
    requires bufferInit <= now
    ensures TimeToSeek(newSector, lastSector, now).0 + 500 <= ComputeLatency(newSector, writing, lastSector, bufferInit, now)
  {
  }
}
