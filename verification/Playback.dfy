/** Playback ring of drivers/acw.c: the writer's and the DMA's positions in a ring
    of `count` periods, and the inited / running / pending machine. Positions and
    sizes are in frames of four bytes; the ring area is a byte buffer. */
module Playback {
  import opened Words
  import opened Bytes

  datatype AudioState = Normal | Stopping | Running | Pending | Inited

  /** The transfer that plauback_trans points to: none, one prepared for the ring, or
      a fresh one whose channel was refused, without controller and descriptors. */
  datatype Handle = NoTransfer | Prepared | Blank

  datatype Stream = Stream(
    size: nat,          // buffer_size, in frames
    period: nat,        // period_size, in frames
    count: nat,         // play_period_count
    hwPtr: int, applPtr: int,
    hwCount: int, appCount: int,
    state: AudioState,
    handle: Handle,
    held: bool,         // the stream's DMA channel is locked for it
    moving: bool,       // the controller goes through the ring
    area: seq<Byte>)
  {
    predicate Configured() {
      period > 0 && count > 0 && size == count * period && |area| >= 4 * size
    }

    predicate Active() {
      state == Inited || state == Running || state == Pending
    }
  }

  // ----- the driver's operations

  /** avil_data_playback: free frames, when `queued` periods wait to be played. */
  function AvailPlayback(s: Stream, queued: nat): int {
    s.size - queued * s.period
  }

  /** The `unsigned` difference of the two counters reaches `count`. */
  predicate RingFull(s: Stream) {
    s.appCount < s.hwCount || s.appCount - s.hwCount >= s.count
  }

  function Accepted(s: Stream, size: nat): int
    requires !RingFull(s)
  {
    var avail := AvailPlayback(s, s.appCount - s.hwCount);
    if avail > size then size else avail
  }

  /** The copies of fh_audio_write. The first copy of the wrapping branch takes
      `appl_ptr` as a byte offset (acw.c:1317). */
  function CopyIn(s: Stream, buffer: seq<Byte>, avail: int): (area: seq<Byte>)
    requires 0 <= s.applPtr <= s.size && 0 <= avail <= s.size
    requires 4 * avail <= |buffer| && 4 * s.size <= |s.area|
    ensures |area| == |s.area|
  {
    if avail + s.applPtr > s.size then
      var first := s.size - s.applPtr;
      Blit(Blit(s.area, s.applPtr, buffer[..4 * first]), 0, buffer[4 * first..4 * avail])
    else
      Blit(s.area, 4 * s.applPtr, buffer[..4 * avail])
  }

  /** What the wrapping branch is for: the ring store of `avail` frames. */
  function RingStore(s: Stream, buffer: seq<Byte>, avail: int): (area: seq<Byte>)
    requires 0 <= s.applPtr <= s.size && 0 <= avail <= s.size
    requires 4 * avail <= |buffer| && 4 * s.size <= |s.area|
    ensures |area| == |s.area|
  {
    if avail + s.applPtr > s.size then
      var first := s.size - s.applPtr;
      Blit(Blit(s.area, 4 * s.applPtr, buffer[..4 * first]), 0, buffer[4 * first..4 * avail])
    else
      Blit(s.area, 4 * s.applPtr, buffer[..4 * avail])
  }

  function NextApplPtr(s: Stream, avail: int): int {
    if avail + s.applPtr > s.size then avail - (s.size - s.applPtr) else s.applPtr + avail
  }

  /** fh_audio_write; the result is the new stream and the frames accepted. With a
      transfer that was never prepared, the start or resume of the DMA goes through
      a null controller (fh_dma.c:1347, 1363) and reaches no channel, if it returns. */
  function AfterWrite(s: Stream, buffer: seq<Byte>): (r: (Stream, int))
    requires s.Configured() && 0 <= s.applPtr <= s.size
    ensures r.0.Configured()
  {
    var size := |buffer| / 4;
    if RingFull(s) then (s, 0)
    else
      QueuedFits(s);
      var avail := Accepted(s, size);
      var appCount := s.appCount + size / s.period;
      var start := (s.state == Pending || s.state == Inited) && appCount > s.hwCount;
      (s.(area := CopyIn(s, buffer, avail),
          applPtr := NextApplPtr(s, avail),
          appCount := appCount,
          state := if start then Running else s.state,
          moving := if start then s.handle == Prepared else s.moving),
       avail)
  }

  lemma QueuedFits(s: Stream)
    requires s.Configured() && !RingFull(s)
    ensures s.period <= AvailPlayback(s, s.appCount - s.hwCount) <= s.size
  {
    RoomLeft(s.count, s.appCount - s.hwCount, s.period);
  }

  lemma RoomLeft(count: nat, queued: nat, period: nat)
    requires queued < count
    ensures period <= count * period - queued * period <= count * period
  {
    var room := count - queued;
    assert room * period == count * period - queued * period;
    assert (room - 1) * period >= 0;
  }

  /** fh_acw_tx_dma_done */
  function AfterTxDmaDone(s: Stream): Stream {
    var hwPtr := s.hwPtr + s.period;
    var drained := s.hwCount + 1 >= s.appCount;
    s.(hwPtr := if hwPtr > s.size then hwPtr - s.size else hwPtr,
       hwCount := s.hwCount + 1,
       state := if drained then Pending else s.state,
       moving := if drained then false else s.moving)
  }

  /** The part of fh_acw_start_playback before it asks for a channel. */
  function Reset(s: Stream): (t: Stream)
    requires |s.area| >= 4 * s.size
    ensures s.Configured() ==> t.Configured()
  {
    s.(applPtr := 0, hwPtr := 0, area := Zeroes(4 * s.size) + s.area[4 * s.size..])
  }

  /** fh_acw_start_playback: `mem` is whether the transfer can be allocated, `free`
      whether nobody else holds the channel and its descriptors can be allocated. A
      start of a ring shorter than four periods waits for ever in
      playback_start_wq_handler, which compares frames with bytes. */
  function AfterStart(s: Stream, mem: bool, free: bool): (t: Stream)
    requires |s.area| >= 4 * s.size
    ensures s.Configured() ==> t.Configured()
  {
    if s.state == Running then s
    else if !mem then Reset(s)
    else if !free || s.held then Reset(s).(handle := Blank)
    else if s.size < 4 * s.period then Reset(s).(handle := Prepared, held := true)
    else Reset(s).(handle := Prepared, held := true, state := Inited)
  }

  function Zeroes(n: nat): seq<Byte> {
    seq(n, _ => 0)
  }

  /** fh_acw_stop_playback: the channel is given back through the transfer that asked for it. */
  function AfterStop(s: Stream): Stream {
    if s.state == Stopping then s
    else
      var release := s.handle == Prepared;
      s.(state := Stopping, appCount := 0, hwCount := 0,
         held := if release then false else s.held, moving := if release then false else s.moving)
  }

  /** AC_AO_DISABLE also frees the transfer. */
  function AfterDisable(s: Stream): Stream {
    AfterStop(s).(handle := NoTransfer)
  }

  // ----- the wrapping branch

  /** The copy stores the frames where the ring wants them, whatever they are,
      exactly when it does not wrap or its first piece is empty. */
  lemma CopyInExact(s: Stream, avail: int)
    requires 0 <= s.applPtr <= s.size && 0 <= avail <= s.size && 4 * s.size <= |s.area|
    ensures (forall buffer: seq<Byte> | |buffer| == 4 * avail :: CopyIn(s, buffer, avail) == RingStore(s, buffer, avail))
            <==> avail + s.applPtr <= s.size || s.applPtr == s.size
  {
    if avail + s.applPtr > s.size && s.applPtr < s.size {
      var last := s.area[4 * s.size - 1];
      var buffer: seq<Byte> := seq(4 * avail, _ => if last == 0 then 1 else 0);
      assert CopyIn(s, buffer, avail)[4 * s.size - 1] == last;
      assert RingStore(s, buffer, avail)[4 * s.size - 1] == buffer[4 * (s.size - s.applPtr) - 1];
    } else if avail + s.applPtr > s.size {
      forall buffer: seq<Byte> | |buffer| == 4 * avail
        ensures CopyIn(s, buffer, avail) == RingStore(s, buffer, avail)
      {
        assert buffer[..0] == [];
      }
    }
  }

  // ----- whole sessions

  /** A session: the stream, the periods accepted so far and the periods that
      the DMA has played to the end. */
  datatype Session = Session(s: Stream, written: seq<seq<Byte>>, played: seq<seq<Byte>>)

  /** The area's period number `j`, as the DMA ring's block `j` covers it. */
  function Slot(s: Stream, j: nat): (r: seq<Byte>)
    requires s.Configured() && j < s.count
    ensures |r| == 4 * s.period
  {
    SlotFits(s, j);
    s.area[4 * (j * s.period)..4 * (j * s.period) + 4 * s.period]
  }

  lemma SlotFits(s: Stream, j: nat)
    requires s.Configured() && j < s.count
    ensures 0 <= j * s.period && j * s.period + s.period <= s.size
  {
    RoomLeft(s.count, j, s.period);
    assert j * s.period >= 0;
  }

  datatype Event = Start(mem: bool, free: bool) | Stop | Disable | Write(buffer: seq<Byte>) | DmaDone

  /** One event. The application writes to a started stream, a period at a time
      (FH_AC_AO_SendFrame); the DMA finishes a block only while it moves. Other
      writes and completions do not happen and change nothing. */
  function Step(x: Session, e: Event): (y: Session)
    requires x.s.Configured()
    ensures y.s.Configured()
  {
    match e
    case Start(mem, free) =>
      var s := AfterStart(x.s, mem, free);
      if s.Active() && !x.s.Active() then Session(s, [], []) else x.(s := s)
    case Stop => x.(s := AfterStop(x.s))
    case Disable => x.(s := AfterDisable(x.s))
    case Write(buffer) =>
      if !x.s.Active() || |buffer| != 4 * x.s.period || !(0 <= x.s.applPtr <= x.s.size) then x
      else
        var (s, accepted) := AfterWrite(x.s, buffer);
        x.(s := s, written := if accepted > 0 then x.written + [buffer] else x.written)
    case DmaDone =>
      if !x.s.moving || x.s.hwCount < 0 then x
      else x.(s := AfterTxDmaDone(x.s), played := x.played + [Slot(x.s, x.s.hwCount % x.s.count)])
  }

  function Run(x: Session, events: seq<Event>): (y: Session)
    requires x.s.Configured()
    ensures y.s.Configured()
  {
    if events == [] then x
    else Step(Run(x, events[..|events| - 1]), events[|events| - 1])
  }

  /** Ring position after `k` periods: 0 at the start, then 1 to `count` periods. */
  function PtrAt(s: Stream, k: nat): int
    requires s.count > 0
  {
    if k > 0 && k % s.count == 0 then s.size else k % s.count * s.period
  }

  ghost predicate Inv(x: Session) {
    && x.s.Configured()
    && (!x.s.Active() ==> x.s.appCount == x.s.hwCount == 0 && !x.s.moving)
    && (x.s.Active() ==>
          && 0 <= x.s.hwCount <= x.s.appCount <= x.s.hwCount + x.s.count
          && (x.s.state == Running <==> x.s.hwCount < x.s.appCount)
          && x.s.handle == Prepared && x.s.held && (x.s.moving <==> x.s.state == Running)
          && x.s.applPtr == PtrAt(x.s, x.s.appCount)
          && x.s.hwPtr == PtrAt(x.s, x.s.hwCount)
          && |x.written| == x.s.appCount
          && x.played == x.written[..x.s.hwCount]
          && QueuedInRing(x.s, x.written))
  }

  /** The periods still to be played lie in the ring, in turn. */
  ghost predicate QueuedInRing(s: Stream, written: seq<seq<Byte>>)
    requires s.Configured() && 0 <= s.hwCount <= s.appCount == |written|
  {
    forall k :: s.hwCount <= k < s.appCount ==> Slot(s, k % s.count) == written[k]
  }

  lemma PtrInRange(s: Stream, k: nat)
    requires s.Configured()
    ensures 0 <= PtrAt(s, k) <= s.size
    ensures k > 0 && k % s.count == 0 <==> PtrAt(s, k) == s.size
  {
    SlotFits(s, k % s.count);
  }

  /** Both pointers advance alike, the wrap being on `>` rather than `>=`. */
  lemma PtrAdvances(s: Stream, k: nat)
    requires s.Configured()
    ensures var p := PtrAt(s, k) + s.period;
            PtrAt(s, k + 1) == if p > s.size then p - s.size else p
  {
    var j := k % s.count;
    NextRemainder(k, s.count);
    SlotFits(s, j);
    assert (j + 1) * s.period == j * s.period + s.period;
    if k > 0 && j == 0 {
      assert 1 * s.period == s.period;
    }
    if j + 1 < s.count {
      SlotFits(s, j + 1);
    }
  }

  /** The stream after `k` block callbacks. */
  function AfterBlocks(s: Stream, k: nat): (t: Stream)
    ensures s.Configured() ==> t.Configured()
    ensures t.size == s.size && t.period == s.period && t.count == s.count
  {
    if k == 0 then s else AfterTxDmaDone(AfterBlocks(s, k - 1))
  }

  lemma {:induction false} BlocksMove(s: Stream, k: nat)
    requires s.Configured() && s.hwPtr == 0
    ensures AfterBlocks(s, k).hwPtr == PtrAt(s, k) && AfterBlocks(s, k).hwCount == s.hwCount + k
  {
    if k > 0 {
      BlocksMove(s, k - 1);
      PtrAdvances(s, k - 1);
    } else {
      assert 0 * s.period == 0;
    }
  }

  /** Writing one period at the application's position is one plain copy. */
  lemma PeriodCopied(s: Stream, buffer: seq<Byte>, k: nat)
    requires s.Configured() && s.applPtr == PtrAt(s, k) && |buffer| == 4 * s.period
    ensures 0 <= s.applPtr <= s.size && s.period <= s.size
    ensures 0 <= k % s.count * s.period && k % s.count * s.period + s.period <= s.size
    ensures CopyIn(s, buffer, s.period) == Blit(s.area, 4 * (k % s.count * s.period), buffer)
  {
    var m := k % s.count;
    PtrInRange(s, k);
    SlotFits(s, m);
    if s.applPtr == s.size {
      assert m * s.period == 0;
      assert buffer[..0] == [] && buffer[0..4 * s.period] == buffer;
      assert Blit(s.area, s.applPtr, []) == s.area;
    } else {
      assert buffer[..4 * s.period] == buffer;
    }
  }

  lemma SlotsApart(a: nat, b: nat, period: nat)
    requires a < b
    ensures a * period + period <= b * period
  {
    var d: nat := b - a - 1;
    assert d * period >= 0;
    assert (a + 1 + d) * period == a * period + period + d * period;
  }

  /** Writing one period at the application's position fills one slot. */
  lemma PeriodLands(s: Stream, buffer: seq<Byte>, k: nat, j: nat)
    requires s.Configured() && s.applPtr == PtrAt(s, k) && |buffer| == 4 * s.period && j < s.count
    ensures 0 <= s.applPtr <= s.size && s.period <= s.size
    ensures var t := s.(area := CopyIn(s, buffer, s.period));
            Slot(t, j) == if j == k % s.count then buffer else Slot(s, j)
  {
    var m := k % s.count;
    PeriodCopied(s, buffer, k);
    SlotFits(s, j);
    var t := s.(area := CopyIn(s, buffer, s.period));
    if j < m {
      SlotsApart(j, m, s.period);
      assert Slot(t, j) == Slot(s, j);
    } else if m < j {
      SlotsApart(m, j, s.period);
      assert Slot(t, j) == Slot(s, j);
    } else {
      assert Slot(t, j) == buffer;
    }
  }

  lemma OnePeriodWrite(s: Stream, buffer: seq<Byte>)
    requires s.Configured() && |buffer| == 4 * s.period && !RingFull(s)
    ensures Accepted(s, |buffer| / 4) == s.period && |buffer| / 4 / s.period == 1
  {
    QueuedFits(s);
    DivUnique(s.period, s.period, 1, 0);
  }

  lemma PeriodAccepted(s: Stream, buffer: seq<Byte>)
    requires s.Configured() && |buffer| == 4 * s.period && 0 <= s.hwCount <= s.appCount < s.hwCount + s.count
    requires s.applPtr == PtrAt(s, s.appCount)
    ensures 0 <= s.applPtr <= s.size && s.period <= s.size
    ensures var start := s.state == Pending || s.state == Inited;
            AfterWrite(s, buffer) ==
              (s.(area := CopyIn(s, buffer, s.period), applPtr := PtrAt(s, s.appCount + 1), appCount := s.appCount + 1,
                  state := if start then Running else s.state,
                  moving := if start then s.handle == Prepared else s.moving), s.period)
  {
    PtrInRange(s, s.appCount);
    OnePeriodWrite(s, buffer);
    PtrAdvances(s, s.appCount);
    SlotFits(s, 0);
  }

  /** A write is taken whole or not at all, into a slot that waits for nothing:
      every queued period, the one being played included, stays as it is. */
  lemma WriteKeeps(x: Session, buffer: seq<Byte>)
    requires Inv(x) && x.s.Active() && |buffer| == 4 * x.s.period
    ensures var y := Step(x, Write(buffer));
            && Inv(y) && y.s.Active()
            && y.written == (if x.s.appCount - x.s.hwCount < x.s.count then x.written + [buffer] else x.written)
            && (forall k :: x.s.hwCount <= k < x.s.appCount ==>
                  Slot(y.s, k % x.s.count) == Slot(x.s, k % x.s.count))
  {
    PtrInRange(x.s, x.s.appCount);
    if !RingFull(x.s) {
      PeriodAccepted(x.s, buffer);
      WriteKeepsQueue(x.s, buffer);
      var y := Step(x, Write(buffer));
      SameSlots(y.s, x.s.(area := y.s.area));
      QueueGrows(x, y, buffer);
    }
  }

  /** A write of any length takes all it is given, or all there is room for. */
  lemma AnyWriteTakes(s: Stream, buffer: seq<Byte>)
    requires s.Configured() && 0 <= s.applPtr <= s.size && 0 <= s.hwCount <= s.appCount < s.hwCount + s.count
    ensures var (t, n) := AfterWrite(s, buffer);
            var room := (s.count - (s.appCount - s.hwCount)) * s.period;
            && n == (if |buffer| / 4 <= room then |buffer| / 4 else room)
            && 0 <= n <= s.size && 0 <= t.applPtr <= s.size
            && (t.applPtr == s.applPtr + n || t.applPtr == s.applPtr + n - s.size)
            && t.area == CopyIn(s, buffer, n) && t.appCount == s.appCount + |buffer| / 4 / s.period
  {
    QueuedFits(s);
    RoomIs(s.count, s.appCount - s.hwCount, s.period);
  }

  /** Unless it wraps in mid-ring, a copy lies behind the last write and nowhere else. */
  lemma CopyLies(s: Stream, buffer: seq<Byte>, n: nat)
    requires 0 <= s.applPtr <= s.size && n <= s.size && 4 * s.size <= |s.area| && 4 * n <= |buffer|
    requires s.applPtr == s.size || s.applPtr + n <= s.size
    ensures var start := if s.applPtr == s.size then 0 else 4 * s.applPtr;
            && start + 4 * n <= 4 * s.size
            && forall i :: 0 <= i < |s.area| ==>
                 CopyIn(s, buffer, n)[i] == if start <= i < start + 4 * n then buffer[i - start] else s.area[i]
  {
    if s.applPtr == s.size && n > 0 {
      assert Blit(s.area, s.size, buffer[..0]) == s.area;
    }
  }

  lemma RoomIs(count: nat, queued: nat, period: nat)
    requires queued <= count
    ensures (count - queued) * period == count * period - queued * period
  {
  }

  lemma SameSlots(s: Stream, t: Stream)
    requires s.Configured() && s.area == t.area && s.size == t.size && s.period == t.period && s.count == t.count
    ensures t.Configured() && forall j: nat :: j < s.count ==> Slot(s, j) == Slot(t, j)
  {
  }

  lemma QueueGrows(x: Session, y: Session, buffer: seq<Byte>)
    requires Inv(x) && x.s.Active() && y.s.Configured() && y.s.count == x.s.count
    requires y.written == x.written + [buffer] && y.s.hwCount == x.s.hwCount && y.s.appCount == x.s.appCount + 1
    requires forall k :: x.s.hwCount <= k <= x.s.appCount ==>
               Slot(y.s, k % x.s.count) == if k == x.s.appCount then buffer else Slot(x.s, k % x.s.count)
    ensures QueuedInRing(y.s, y.written)
  {
  }

  lemma WriteKeepsQueue(s: Stream, buffer: seq<Byte>)
    requires s.Configured() && |buffer| == 4 * s.period && 0 <= s.hwCount <= s.appCount < s.hwCount + s.count
    requires s.applPtr == PtrAt(s, s.appCount)
    ensures 0 <= s.applPtr <= s.size && s.period <= s.size
    ensures var t := s.(area := CopyIn(s, buffer, s.period));
            forall k :: s.hwCount <= k <= s.appCount ==>
              Slot(t, k % s.count) == if k == s.appCount then buffer else Slot(s, k % s.count)
  {
    PeriodCopied(s, buffer, s.appCount);
    var t := s.(area := CopyIn(s, buffer, s.period));
    forall k | s.hwCount <= k <= s.appCount
      ensures Slot(t, k % s.count) == if k == s.appCount then buffer else Slot(s, k % s.count)
    {
      PeriodLands(s, buffer, s.appCount, k % s.count);
      if k < s.appCount {
        RemaindersDiffer(k, s.appCount, s.count);
      }
    }
  }

  lemma DmaDoneKeeps(x: Session)
    requires Inv(x)
    ensures Inv(Step(x, DmaDone))
    ensures x.s.state == Running ==> Step(x, DmaDone).played == x.played + [x.written[x.s.hwCount]]
  {
    if x.s.state == Running {
      var y := Step(x, DmaDone);
      PtrAdvances(x.s, x.s.hwCount);
      assert Slot(x.s, x.s.hwCount % x.s.count) == x.written[x.s.hwCount];
      forall k | y.s.hwCount <= k < y.s.appCount
        ensures Slot(y.s, k % y.s.count) == y.written[k]
      {
        assert Slot(y.s, k % y.s.count) == Slot(x.s, k % x.s.count);
      }
    }
  }

  /** A start finds the stream stopped or running. */
  predicate InOrder(s: Stream, e: Event) {
    e.Start? ==> s.state != Inited && s.state != Pending
  }

  predicate Orderly(x: Session, events: seq<Event>)
    requires x.s.Configured()
  {
    events != [] ==>
      var before := events[..|events| - 1];
      Orderly(x, before) && InOrder(Run(x, before).s, events[|events| - 1])
  }

  /** An orderly start, a stop and a closing of the driver leave an empty queue or
      change nothing. */
  lemma CommandKeeps(x: Session, e: Event)
    requires Inv(x) && InOrder(x.s, e) && (e.Start? || e.Stop? || e.Disable?)
    ensures Inv(Step(x, e))
  {
  }

  lemma StepKeeps(x: Session, e: Event)
    requires Inv(x) && InOrder(x.s, e)
    ensures Inv(Step(x, e))
  {
    match e
    case Write(buffer) =>
      if x.s.Active() && |buffer| == 4 * x.s.period {
        WriteKeeps(x, buffer);
      }
    case DmaDone =>
      DmaDoneKeeps(x);
    case _ =>
      CommandKeeps(x, e);
  }

  /** A configured stream that was never started. */
  predicate Unstarted(s: Stream) {
    s.Configured() && !s.Active() && s.appCount == s.hwCount == 0 && !s.moving
  }

  /** A stream that is not started holds no channel, unless a start of too short a
      ring still waits with it. */
  predicate GivenBack(s: Stream) {
    !s.Active() && s.count >= 4 ==> !s.held
  }

  lemma StepGivesBack(x: Session, e: Event)
    requires Inv(x) && InOrder(x.s, e)
    ensures Step(x, e).s.count == x.s.count
    ensures GivenBack(x.s) ==> GivenBack(Step(x, e).s)
  {
    FourPeriods(x.s.count, x.s.period);
  }

  lemma {:induction false} RunKeeps(x: Session, events: seq<Event>)
    requires Inv(x) && Orderly(x, events)
    ensures Inv(Run(x, events)) && Run(x, events).s.count == x.s.count
    ensures GivenBack(x.s) ==> GivenBack(Run(x, events).s)
  {
    if events != [] {
      RunKeeps(x, events[..|events| - 1]);
      StepKeeps(Run(x, events[..|events| - 1]), events[|events| - 1]);
      StepGivesBack(Run(x, events[..|events| - 1]), events[|events| - 1]);
    }
  }

  /** The session so far is a FIFO of periods: counters within one ring of each
      other, running and the DMA moving if and only if something is queued, the
      periods played those written, in order, and the rest in their slots. */
  ghost predicate IsFifo(x: Session)
    requires x.s.Configured()
  {
    x.s.Active() ==>
      && 0 <= x.s.appCount - x.s.hwCount <= x.s.count
      && (x.s.state == Running <==> x.s.hwCount < x.s.appCount)
      && (x.s.moving <==> x.s.state == Running)
      && |x.played| == x.s.hwCount && |x.written| == x.s.appCount
      && x.played <= x.written
      && (forall k :: |x.played| <= k < |x.written| ==> Slot(x.s, k % x.s.count) == x.written[k])
  }

  /** Every interleaving of starts of a stopped or running stream, whatever comes of
      them, stops, period writes and DMA interrupts plays
      exactly the accepted periods of the session, in order, none lost, repeated
      or overwritten while queued. */
  lemma PlaybackIsFifo(s: Stream, events: seq<Event>)
    requires Unstarted(s) && Orderly(Session(s, [], []), events)
    ensures IsFifo(Run(Session(s, [], []), events))
  {
    RunKeeps(Session(s, [], []), events);
  }

  // ----- starts that fail

  /** A start of a stopped stream succeeds exactly with memory, a channel that is
      free for it, and a ring of at least four periods. */
  lemma StartExact(s: Stream, mem: bool, free: bool)
    requires s.Configured() && !s.Active()
    ensures AfterStart(s, mem, free).Active() <==> mem && free && !s.held && s.count >= 4
  {
    FourPeriods(s.count, s.period);
  }

  /** After any orderly run and a stop, or a closing of the driver, the stream can be
      started again, exactly if its ring has at least four periods. */
  lemma RestartExact(s: Stream, events: seq<Event>, e: Event)
    requires Unstarted(s) && !s.held && Orderly(Session(s, [], []), events) && (e.Stop? || e.Disable?)
    ensures var x := Step(Run(Session(s, [], []), events), e);
            !x.s.Active() && (Step(x, Start(true, true)).s.Active() <==> s.count >= 4)
  {
    var x := Run(Session(s, [], []), events);
    RunKeeps(Session(s, [], []), events);
    StepGivesBack(x, e);
    StartExact(Step(x, e).s, true, true);
  }

  lemma FourPeriods(count: nat, period: nat)
    requires period > 0
    ensures count * period < 4 * period <==> count < 4
  {
    if count < 4 {
      assert (3 - count) * period >= 0;
    } else {
      assert (count - 4) * period >= 0;
    }
  }

  /** Position 0 and position `size` are the same place of the ring. */
  predicate SamePlace(p: int, q: int, size: int) {
    p == q || (p == 0 && q == size)
  }

  predicate Twins(x: Session, y: Session) {
    && x.written == y.written && x.played == y.played
    && x.s == y.s.(hwPtr := x.s.hwPtr, applPtr := x.s.applPtr)
    && SamePlace(x.s.hwPtr, y.s.hwPtr, y.s.size) && SamePlace(x.s.applPtr, y.s.applPtr, y.s.size)
  }

  lemma TwinCopies(s: Stream, t: Stream, buffer: seq<Byte>, avail: int)
    requires s.Configured() && s == t.(hwPtr := s.hwPtr, applPtr := 0) && t.applPtr == t.size
    requires 0 <= avail <= s.size && 4 * avail <= |buffer|
    ensures CopyIn(s, buffer, avail) == CopyIn(t, buffer, avail)
    ensures SamePlace(NextApplPtr(s, avail), NextApplPtr(t, avail), t.size)
  {
    assert buffer[..0] == [] && buffer[0..4 * avail] == buffer[..4 * avail];
    assert Blit(s.area, t.size, []) == s.area;
  }

  lemma TwinAccepts(s: Stream, t: Stream, buffer: seq<Byte>)
    requires s.Configured() && !RingFull(s) && 0 <= s.applPtr <= s.size && 0 <= t.applPtr <= t.size
    requires s == t.(hwPtr := s.hwPtr, applPtr := s.applPtr) && SamePlace(s.applPtr, t.applPtr, t.size)
    ensures var a, b := AfterWrite(s, buffer), AfterWrite(t, buffer);
            && a.1 == b.1 && a.0 == b.0.(hwPtr := s.hwPtr, applPtr := a.0.applPtr) && b.0.hwPtr == t.hwPtr
            && SamePlace(a.0.applPtr, b.0.applPtr, t.size)
  {
    QueuedFits(s);
    var avail := Accepted(s, |buffer| / 4);
    if s.applPtr == t.applPtr {
      assert CopyIn(s, buffer, avail) == CopyIn(t, buffer, avail);
    } else {
      TwinCopies(s, t, buffer, avail);
    }
  }

  lemma TwinWrites(x: Session, y: Session, buffer: seq<Byte>)
    requires Inv(y) && Twins(x, y) && y.s.Active()
    ensures Twins(Step(x, Write(buffer)), Step(y, Write(buffer)))
  {
    PtrInRange(y.s, y.s.appCount);
    if !RingFull(x.s) {
      TwinAccepts(x.s, y.s, buffer);
    }
  }

  lemma TwinSteps(x: Session, y: Session, e: Event)
    requires Inv(y) && Twins(x, y) && InOrder(y.s, e)
    ensures Twins(Step(x, e), Step(y, e))
  {
    match e
    case Start(_, _) =>
    case Stop =>
    case Disable =>
    case Write(buffer) =>
      if y.s.Active() {
        TwinWrites(x, y, buffer);
      }
    case DmaDone => TwinPlays(x, y);
  }

  lemma TwinPlays(x: Session, y: Session)
    requires Inv(y) && Twins(x, y)
    ensures Twins(Step(x, DmaDone), Step(y, DmaDone))
  {
    if y.s.state == Running {
      SlotFits(x.s, 0);
      assert Slot(x.s, x.s.hwCount % x.s.count) == Slot(y.s, y.s.hwCount % y.s.count);
    }
  }

  lemma {:induction false} TwinRuns(x: Session, y: Session, events: seq<Event>)
    requires Inv(y) && Twins(x, y) && Orderly(x, events)
    ensures Inv(Run(y, events)) && Twins(Run(x, events), Run(y, events))
  {
    if events != [] {
      var before := events[..|events| - 1];
      TwinRuns(x, y, before);
      StepKeeps(Run(y, before), events[|events| - 1]);
      TwinSteps(Run(x, before), Run(y, before), events[|events| - 1]);
    }
  }

  lemma TwinIsFifo(x: Session, y: Session)
    requires Inv(y) && Twins(x, y)
    ensures IsFifo(x)
  {
    if x.s.Active() {
      forall k | |x.played| <= k < |x.written|
        ensures Slot(x.s, k % x.s.count) == x.written[k]
      {
        assert Slot(y.s, k % y.s.count) == y.written[k];
      }
    }
  }

  /** The stream after a second start whose transfer cannot be allocated. */
  function ResetSession(x: Session): (y: Session)
    requires x.s.Configured()
    ensures y.s.Configured()
  {
    x.(s := Reset(x.s))
  }

  lemma ResetInStep(x: Session, events: seq<Event>)
    requires Inv(x) && (x.s.state == Inited || x.s.state == Pending) && x.s.hwCount % x.s.count == 0
    requires Orderly(ResetSession(x), events)
    ensures IsFifo(Run(ResetSession(x), events))
  {
    var x' := ResetSession(x);
    var y := x'.(s := x'.s.(hwPtr := x.s.hwPtr, applPtr := x.s.applPtr));
    assert Inv(y);
    TwinRuns(x', y, events);
    TwinIsFifo(Run(x', events), Run(y, events));
  }

  lemma ResetSilent(s: Stream, j: nat)
    requires s.Configured() && j < s.count
    ensures Slot(Reset(s), j) == Zeroes(4 * s.period)
  {
    SlotFits(s, j);
  }

  /** Otherwise the next period is stored in slot 0, and silence stays where the DMA goes on. */
  lemma ResetWrites(x: Session, buffer: seq<Byte>) returns (y: Session)
    requires Inv(x) && (x.s.state == Inited || x.s.state == Pending) && x.s.hwCount % x.s.count != 0
    requires |buffer| == 4 * x.s.period
    ensures y == Step(ResetSession(x), Write(buffer)) && y.s.Active() && y.s.moving
    ensures y.s.hwCount == x.s.hwCount && y.s.appCount == x.s.hwCount + 1 && y.s.count == x.s.count
    ensures y.written == x.written + [buffer] && y.played == x.played && |x.written| == |x.played| == x.s.hwCount
    ensures Slot(y.s, x.s.hwCount % x.s.count) == Zeroes(4 * x.s.period)
  {
    var x' := ResetSession(x);
    var j := x.s.hwCount % x.s.count;
    OnePeriodWrite(x'.s, buffer);
    PeriodLands(x'.s, buffer, 0, j);
    SlotFits(x'.s, j);
    ResetSilent(x.s, j);
    y := Step(x', Write(buffer));
    assert Slot(y.s, j) == Slot(x'.s.(area := CopyIn(x'.s, buffer, x'.s.period)), j);
  }

  lemma RunTwo(x: Session, a: Event, b: Event)
    requires x.s.Configured()
    ensures Run(x, [a]) == Step(x, a) && Run(x, [a, b]) == Step(Step(x, a), b)
    ensures !a.Start? && !b.Start? ==> Orderly(x, [a]) && Orderly(x, [a, b])
  {
    assert [a, b][..1] == [a] && [a][..0] == [];
  }

  lemma ResetOutOfStep(x: Session) returns (events: seq<Event>)
    requires Inv(x) && (x.s.state == Inited || x.s.state == Pending) && x.s.hwCount % x.s.count != 0
    ensures Orderly(ResetSession(x), events) && !IsFifo(Run(ResetSession(x), events))
  {
    var buffer: seq<Byte> := seq(4 * x.s.period, _ => 1);
    var y := ResetWrites(x, buffer);
    events := [Write(buffer), DmaDone];
    RunTwo(ResetSession(x), Write(buffer), DmaDone);
    var z := Step(y, DmaDone);
    assert z.played[x.s.hwCount][0] == 0 && z.written[x.s.hwCount][0] == 1;
  }

  /** The stream whose second start was refused the channel that it holds itself. */
  lemma RefusedStops(x: Session, free: bool) returns (events: seq<Event>)
    requires Inv(x) && (x.s.state == Inited || x.s.state == Pending)
    ensures var y := Step(x, Start(true, free)); Orderly(y, events) && !IsFifo(Run(y, events))
  {
    var buffer: seq<Byte> := seq(4 * x.s.period, _ => 1);
    var y := Step(x, Start(true, free));
    OnePeriodWrite(y.s, buffer);
    RunTwo(y, Write(buffer), DmaDone);
    events := [Write(buffer)];
  }

  /** The transfer that could move the DMA or give its channel back is lost. */
  predicate Orphaned(s: Stream) {
    s.held && !s.moving && s.handle != Prepared
  }

  /** From then on nothing is ever played and the channel is never given back, so
      that every later start is refused too. */
  lemma {:induction false} OrphanedForEver(x: Session, events: seq<Event>)
    requires x.s.Configured() && Orphaned(x.s)
    ensures var y := Run(x, events); Orphaned(y.s) && y.played == x.played
    ensures !x.s.Active() ==> !Run(x, events).s.Active()
  {
    if events != [] {
      var before := events[..|events| - 1];
      OrphanedForEver(x, before);
      OrphanStays(Run(x, before), events[|events| - 1]);
    }
  }

  lemma OrphanStays(x: Session, e: Event)
    requires x.s.Configured() && Orphaned(x.s)
    ensures var y := Step(x, e); Orphaned(y.s) && y.played == x.played && (!x.s.Active() ==> !y.s.Active())
  {
  }

  lemma RefusedOrphans(x: Session, free: bool)
    requires Inv(x) && (x.s.state == Inited || x.s.state == Pending)
    ensures Orphaned(Step(x, Start(true, free)).s) && Step(x, Start(true, free)).played == x.played
  {
  }

  /** A second start of a stream that waits for data does no harm exactly if its
      transfer could not even be allocated and the DMA stood at the beginning of the
      ring: then, and only then, every orderly run goes on as a FIFO. */
  lemma StartAgainExact(x: Session, mem: bool, free: bool)
    requires Inv(x) && (x.s.state == Inited || x.s.state == Pending)
    ensures (forall events ::
               Orderly(Step(x, Start(mem, free)), events) ==> IsFifo(Run(Step(x, Start(mem, free)), events)))
            <==> !mem && x.s.hwCount % x.s.count == 0
  {
    if mem {
      var events := RefusedStops(x, free);
    } else {
      assert Step(x, Start(mem, free)) == ResetSession(x);
      if x.s.hwCount % x.s.count == 0 {
        forall events | Orderly(ResetSession(x), events)
          ensures IsFifo(Run(ResetSession(x), events))
        {
          ResetInStep(x, events);
        }
      } else {
        var events := ResetOutOfStep(x);
      }
    }
  }

  // ----- the driver

  class Device {
    const size: nat
    const period: nat
    const count: nat
    const area: array<Byte>
    var hwPtr: int
    var applPtr: int
    var hwCount: int
    var appCount: int
    var state: AudioState
    var handle: Handle
    var held: bool
    var moving: bool

    ghost function View(): Stream
      reads this, area
    {
      Stream(size, period, count, hwPtr, applPtr, hwCount, appCount, state, handle, held, moving, area[..])
    }

    /** The area is allocated with one period to spare (audio_prealloc_dma_buffer). */
    constructor (count: nat, period: nat)
      requires count > 0 && period > 0
      ensures Unstarted(View()) && fresh(area) && this.count == count && this.period == period
    {
      this.count, this.period, size := count, period, count * period;
      area := new Byte[4 * (count * period) + 4 * period];
      hwPtr, applPtr, hwCount, appCount, state := 0, 0, 0, 0, Normal;
      handle, held, moving := NoTransfer, false, false;
    }

    /** False if the start fails, or waits for ever. */
    method Start(mem: bool, free: bool) returns (ok: bool)
      requires View().Configured()
      modifies this, area
      ensures View() == AfterStart(old(View()), mem, free)
      ensures ok <==> old(state) != Running && mem && free && !old(held) && size >= 4 * period
    {
      if state == Running {
        return false;
      }
      applPtr := 0;
      hwPtr := 0;
      forall i | 0 <= i < 4 * size {
        area[i] := 0;
      }
      assert area[..] == Zeroes(4 * size) + old(area[..])[4 * size..];
      if !mem {
        return false;
      }
      handle := Blank;
      if !free || held {
        return false;
      }
      held := true;
      handle := Prepared;
      if size < 4 * period {
        return false;
      }
      state := Inited;
      ok := true;
    }

    method Stop()
      modifies this
      ensures View() == AfterStop(old(View()))
    {
      if state == Stopping {
        return;
      }
      state := Stopping;
      appCount := 0;
      hwCount := 0;
      if handle == Prepared {
        moving := false;
        held := false;
      }
    }

    /** AC_AO_DISABLE */
    method Disable()
      modifies this
      ensures View() == AfterDisable(old(View()))
    {
      Stop();
      handle := NoTransfer;
    }

    method TxDmaDone()
      modifies this
      ensures View() == AfterTxDmaDone(old(View()))
    {
      hwPtr := hwPtr + period;
      if hwPtr > size {
        hwPtr := hwPtr - size;
      }
      hwCount := hwCount + 1;
      if hwCount >= appCount {
        moving := false;
        state := Pending;
      }
    }

    /** The copying part of fh_audio_write. */
    method CopyFrames(buffer: seq<Byte>, avail: nat)
      requires View().Configured() && 0 <= applPtr <= size && avail <= size && 4 * avail <= |buffer|
      modifies this`applPtr, area
      ensures area[..] == CopyIn(old(View()), buffer, avail)
      ensures applPtr == NextApplPtr(old(View()), avail)
    {
      if avail + applPtr > size {
        var first := size - applPtr;
        Memcpy(area, applPtr, buffer[..4 * first]);
        Memcpy(area, 0, buffer[4 * first..4 * avail]);
        applPtr := avail - first;
      } else {
        Memcpy(area, 4 * applPtr, buffer[..4 * avail]);
        applPtr := applPtr + avail;
      }
    }

    method AudioWrite(buffer: seq<Byte>) returns (bytes: nat)
      requires View().Configured() && 0 <= applPtr <= size
      modifies this, area
      ensures var (s, accepted) := AfterWrite(old(View()), buffer);
              View() == s && bytes == 4 * accepted
    {
      var frames := |buffer| / 4;
      if appCount < hwCount || appCount - hwCount >= count {
        return 0;
      }
      ghost var s := View();
      QueuedFits(s);
      var avail := size - (appCount - hwCount) * period;
      if avail > frames {
        avail := frames;
      }
      assert avail == Accepted(s, frames);
      CopyFrames(buffer, avail);
      appCount := appCount + frames / period;
      if state == Pending && appCount > hwCount {
        moving := handle == Prepared;
        state := Running;
      }
      if state == Inited && appCount > hwCount {
        moving := handle == Prepared;
        state := Running;
      }
      bytes := 4 * avail;
    }
  }
}
