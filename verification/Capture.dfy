/** Capture ring of drivers/acw.c. Positions and sizes are in frames; every
    address in the source is a frame index times four. */
module Capture {
  import opened Words
  import opened Bytes

  type Frame = int

  datatype Stream = Stream(size: nat, period: nat, hwPtr: int, applPtr: int, area: seq<Frame>)
  {
    predicate Configured() {
      0 < period <= size && |area| >= size
    }
  }

  // ----- the driver's operations

  /** avail_data_len for a capture stream. */
  function AvailDataLen(s: Stream): int {
    var delta := s.hwPtr - s.applPtr;
    if delta < 0 then delta + s.size else delta
  }

  /** fh_acw_rx_dma_done */
  function AfterRxDmaDone(s: Stream): Stream {
    var hwPtr := s.hwPtr + s.period;
    s.(hwPtr := if hwPtr > s.size then hwPtr - s.size else hwPtr)
  }

  function ReadCount(s: Stream, frames: nat): int {
    var avail := AvailDataLen(s);
    if avail > frames then frames else avail
  }

  /** fh_audio_read for a buffer of `frames` frames: the new stream and the data. */
  function AfterRead(s: Stream, frames: nat): (r: (Stream, seq<Frame>))
    requires s.Configured() && 0 <= s.applPtr <= s.size && 0 <= s.hwPtr <= s.size
    ensures r.0.Configured()
  {
    var avail := ReadCount(s, frames);
    if avail + s.applPtr > s.size then
      var left := avail - (s.size - s.applPtr);
      (s.(applPtr := left), s.area[s.applPtr..s.size] + s.area[..left])
    else
      (s.(applPtr := s.applPtr + avail), s.area[s.applPtr..s.applPtr + avail])
  }

  // ----- positions as totals

  /** Ring position after `total` frames: 0 at the start, then 1 to `size`. */
  function PtrAt(size: nat, total: nat): int
    requires size > 0
  {
    if total > 0 && total % size == 0 then size else total % size
  }

  /** Pointer arithmetic with the wrap on `>`. */
  lemma PtrAdd(size: nat, total: nat, d: nat)
    requires size > 0 && d <= size
    ensures var p := PtrAt(size, total) + d;
            PtrAt(size, total + d) == if p > size then p - size else p
  {
    var q, r := total / size, total % size;
    assert total == q * size + r;
    if r + d < size {
      DivUnique(total + d, size, q, r + d);
    } else {
      assert (q + 1) * size == q * size + size;
      DivUnique(total + d, size, q + 1, r + d - size);
    }
  }

  /** The stream after `k` block callbacks. */
  function AfterBlocks(s: Stream, k: nat): (t: Stream)
    ensures t.size == s.size && t.period == s.period
  {
    if k == 0 then s else AfterRxDmaDone(AfterBlocks(s, k - 1))
  }

  lemma OneMore(k: nat, n: nat)
    requires k > 0
    ensures (k - 1) * n >= 0 && k * n == (k - 1) * n + n
  {
  }

  lemma {:induction false} BlocksMove(s: Stream, k: nat)
    requires s.Configured() && s.hwPtr == 0
    ensures k * s.period >= 0 && AfterBlocks(s, k).hwPtr == PtrAt(s.size, k * s.period)
  {
    if k > 0 {
      BlocksMove(s, k - 1);
      var before := (k - 1) * s.period;
      OneMore(k, s.period);
      PtrAdd(s.size, before, s.period);
    }
  }

  /** The frame at `total + j` lies `j` places after the pointer, around the ring. */
  lemma IndexAfter(size: nat, total: nat, j: nat)
    requires size > 0 && j < size
    ensures var p := PtrAt(size, total) + j;
            (total + j) % size == if p < size then p else p - size
  {
    var q, r := total / size, total % size;
    assert total == q * size + r;
    if r + j < size {
      DivUnique(total + j, size, q, r + j);
    } else {
      assert (q + 1) * size == q * size + size;
      DivUnique(total + j, size, q + 1, r + j - size);
    }
  }

  /** avail_data_len against the true lag, while it is at most the ring: a full
      ring reads as empty once anything was ever read. */
  lemma AvailExact(s: Stream, produced: nat, taken: nat)
    requires s.size > 0 && taken <= produced <= taken + s.size
    requires s.hwPtr == PtrAt(s.size, produced) && s.applPtr == PtrAt(s.size, taken)
    ensures AvailDataLen(s) == if produced - taken == s.size && taken > 0 then 0 else produced - taken
    ensures AvailDataLen(s) == produced - taken <==> produced - taken < s.size || taken == 0
  {
    PtrAdd(s.size, taken, produced - taken);
  }

  /** Whatever the lag, avail_data_len is congruent to it. */
  lemma AvailCongruent(s: Stream, produced: nat, taken: nat)
    requires s.size > 0 && taken <= produced
    requires s.hwPtr == PtrAt(s.size, produced) && s.applPtr == PtrAt(s.size, taken)
    ensures 0 <= AvailDataLen(s) <= s.size
    ensures AvailDataLen(s) % s.size == (produced - taken) % s.size
  {
    var n := s.size;
    var a := TurnsOf(n, produced);
    var b := TurnsOf(n, taken);
    var delta := s.hwPtr - s.applPtr;
    assert produced - taken == (a - b) * n + delta by {
      assert a * n - b * n == (a - b) * n;
    }
    if delta < 0 {
      assert (a - b - 1) * n == (a - b) * n - n;
      Congruent(produced - taken, AvailDataLen(s), n, a - b - 1);
    } else {
      Congruent(produced - taken, AvailDataLen(s), n, a - b);
    }
  }

  lemma TurnsOf(size: nat, total: nat) returns (turns: int)
    requires size > 0
    ensures total == turns * size + PtrAt(size, total) && 0 <= PtrAt(size, total) <= size
  {
    turns := total / size;
    assert total == turns * size + total % size;
    if total > 0 && total % size == 0 {
      turns := turns - 1;
      assert total == turns * size + size;
    }
  }

  lemma Congruent(x: nat, y: nat, n: nat, k: int)
    requires n > 0 && x == k * n + y
    ensures x % n == y % n
  {
    assert y == y / n * n + y % n;
    assert (k + y / n) * n == k * n + y / n * n;
    DivUnique(x, n, k + y / n, y % n);
  }

  // ----- whole sessions

  /** `captured` is every frame the DMA has stored; `acked` of them are covered by
      block interrupts handled so far; `delivered` is what reads returned. */
  datatype Session = Session(s: Stream, captured: seq<Frame>, acked: nat, delivered: seq<Frame>)

  datatype Event = Store(frame: Frame) | BlockDone | Read(frames: nat)

  /** The cyclic DMA stores frame after frame around the ring; a block interrupt
      is handled some time after its block is complete. */
  function Step(x: Session, e: Event): (y: Session)
    requires x.s.Configured()
    ensures y.s.Configured()
  {
    match e
    case Store(frame) =>
      x.(s := x.s.(area := x.s.area[|x.captured| % x.s.size := frame]),
         captured := x.captured + [frame])
    case BlockDone =>
      if x.acked + x.s.period > |x.captured| then x
      else x.(s := AfterRxDmaDone(x.s), acked := x.acked + x.s.period)
    case Read(frames) =>
      if !(0 <= x.s.applPtr <= x.s.size && 0 <= x.s.hwPtr <= x.s.size) then x
      else
        var (s, data) := AfterRead(x.s, frames);
        x.(s := s, delivered := x.delivered + data)
  }

  function Run(x: Session, events: seq<Event>): (y: Session)
    requires x.s.Configured()
    ensures y.s.Configured()
  {
    if events == [] then x
    else Step(Run(x, events[..|events| - 1]), events[|events| - 1])
  }

  /** No read comes so late that the DMA has already reused an unread frame. */
  ghost predicate Timely(x: Session, events: seq<Event>)
    requires x.s.Configured()
  {
    events != [] ==>
      var before := events[..|events| - 1];
      && Timely(x, before)
      && (events[|events| - 1].Read? ==>
            |Run(x, before).captured| - |Run(x, before).delivered| <= x.s.size)
  }

  /** The ring holds the latest `size` frames. */
  ghost predicate Latest(s: Stream, captured: seq<Frame>)
    requires s.Configured()
  {
    forall i :: 0 <= i < |captured| && |captured| <= i + s.size ==> s.area[i % s.size] == captured[i]
  }

  ghost predicate Inv(x: Session) {
    && x.s.Configured()
    && |x.delivered| <= x.acked <= |x.captured|
    && x.s.hwPtr == PtrAt(x.s.size, x.acked)
    && x.s.applPtr == PtrAt(x.s.size, |x.delivered|)
    && Latest(x.s, x.captured)
  }

  lemma StoreKeeps(x: Session, frame: Frame)
    requires Inv(x)
    ensures Inv(Step(x, Store(frame)))
  {
    var y := Step(x, Store(frame));
    var n := |x.captured|;
    forall i | 0 <= i < n + 1 && n + 1 <= i + x.s.size
      ensures y.s.area[i % x.s.size] == y.captured[i]
    {
      if i < n {
        RemaindersDiffer(i, n, x.s.size);
      }
    }
  }

  lemma BlockDoneKeeps(x: Session)
    requires Inv(x)
    ensures Inv(Step(x, BlockDone))
  {
    PtrAdd(x.s.size, x.acked, x.s.period);
  }

  /** A read in time takes the next frames of the stream and keeps the ring in
      step; its count is `avail_data_len`, cut to the caller's buffer. */
  lemma ReadInTime(x: Session, frames: nat)
    requires Inv(x) && |x.captured| - |x.delivered| <= x.s.size
    ensures 0 <= x.s.applPtr <= x.s.size && 0 <= x.s.hwPtr <= x.s.size
    ensures var m := ReadCount(x.s, frames);
            var taken := |x.delivered|;
            && 0 <= m <= x.acked - taken
            && AfterRead(x.s, frames).1 == x.captured[taken..taken + m]
            && AfterRead(x.s, frames).0.applPtr == PtrAt(x.s.size, taken + m)
  {
    var s, taken := x.s, |x.delivered|;
    var m := ReadCount(s, frames);
    AvailExact(s, x.acked, taken);
    PtrAdd(s.size, taken, m);
    var data := AfterRead(s, frames).1;
    forall j | 0 <= j < m
      ensures data[j] == x.captured[taken + j]
    {
      ReadAt(s, x.captured, taken, frames, j);
    }
  }

  /** Frame `j` of a read, found in a ring that holds the latest frames. */
  lemma ReadAt(s: Stream, captured: seq<Frame>, taken: nat, frames: nat, j: nat)
    requires s.Configured() && 0 <= s.applPtr <= s.size && 0 <= s.hwPtr <= s.size
    requires s.applPtr == PtrAt(s.size, taken) && Latest(s, captured)
    requires j < ReadCount(s, frames) <= s.size
    requires taken + j < |captured| <= taken + s.size
    ensures AfterRead(s, frames).1[j] == captured[taken + j]
  {
    ReadIndex(s, taken, j, ReadCount(s, frames));
    assert s.area[(taken + j) % s.size] == captured[taken + j];
  }

  /** A full ring of which something was ever read: it reads as empty. */
  predicate Stuck(x: Session) {
    x.acked - |x.delivered| == x.s.size && x.delivered != []
  }

  /** A read in time delivers all it is asked for or all that is acknowledged,
      unless the ring is stuck. */
  lemma ReadExact(x: Session, frames: nat)
    requires Inv(x) && |x.captured| - |x.delivered| <= x.s.size
    ensures 0 <= x.s.applPtr <= x.s.size && 0 <= x.s.hwPtr <= x.s.size
    ensures var lag := x.acked - |x.delivered|;
            var n := if Stuck(x) then 0 else if frames <= lag then frames else lag;
            AfterRead(x.s, frames).1 == x.captured[|x.delivered|..|x.delivered| + n]
  {
    ReadInTime(x, frames);
    AvailExact(x.s, x.acked, |x.delivered|);
  }

  function Reads(ns: seq<nat>): seq<Event> {
    if ns == [] then [] else Reads(ns[..|ns| - 1]) + [Read(ns[|ns| - 1])]
  }

  function Total(ns: seq<nat>): nat {
    if ns == [] then 0 else Total(ns[..|ns| - 1]) + ns[|ns| - 1]
  }

  /** A row of reads delivers what they ask for together, or all that is acknowledged. */
  lemma {:induction false} ReadsDeliver(x: Session, ns: seq<nat>)
    requires Inv(x) && |x.captured| - |x.delivered| <= x.s.size && !Stuck(x)
    requires x.delivered == x.captured[..|x.delivered|]
    ensures var y := Run(x, Reads(ns));
            var lag := x.acked - |x.delivered|;
            && Inv(y) && y.s.size == x.s.size && y.captured == x.captured && y.acked == x.acked && !Stuck(y)
            && |y.delivered| == |x.delivered| + (if Total(ns) <= lag then Total(ns) else lag)
            && y.delivered == x.captured[..|y.delivered|]
  {
    if ns != [] {
      var before, n := ns[..|ns| - 1], ns[|ns| - 1];
      ReadsDeliver(x, before);
      assert Reads(ns)[..|Reads(ns)| - 1] == Reads(before);
      var y := Run(x, Reads(before));
      assert Run(x, Reads(ns)) == Step(y, Read(n));
      ReadKeeps(y, n);
      ReadExact(y, n);
    }
  }

  lemma ReadIndex(s: Stream, taken: nat, j: nat, m: nat)
    requires s.size > 0 && s.applPtr == PtrAt(s.size, taken) && j < m <= s.size
    ensures (taken + j) % s.size ==
            if m + s.applPtr > s.size && j >= s.size - s.applPtr then j - (s.size - s.applPtr) else s.applPtr + j
  {
    IndexAfter(s.size, taken, j);
  }

  lemma ReadKeeps(x: Session, frames: nat)
    requires Inv(x) && |x.captured| - |x.delivered| <= x.s.size
    requires x.delivered == x.captured[..|x.delivered|]
    ensures var y := Step(x, Read(frames));
            Inv(y) && y.delivered == y.captured[..|y.delivered|]
  {
    ReadInTime(x, frames);
    var y := Step(x, Read(frames));
    var m := ReadCount(x.s, frames);
    assert y.captured[..|x.delivered| + m] == x.captured[..|x.delivered|] + x.captured[|x.delivered|..|x.delivered| + m];
  }

  predicate Fresh(s: Stream) {
    s.Configured() && s.hwPtr == s.applPtr == 0
  }

  /** In every run whose reads are in time, reads of any size deliver a prefix of
      the captured stream: the capture ring is a FIFO. */
  lemma {:induction false} CaptureIsFifo(s: Stream, events: seq<Event>)
    requires Fresh(s) && Timely(Session(s, [], 0, []), events)
    ensures var x := Run(Session(s, [], 0, []), events);
            Inv(x) && x.s.size == s.size && x.delivered == x.captured[..|x.delivered|]
  {
    var x0 := Session(s, [], 0, []);
    if events != [] {
      var before := events[..|events| - 1];
      CaptureIsFifo(s, before);
      var x := Run(x0, before);
      match events[|events| - 1]
      case Store(frame) =>
        StoreKeeps(x, frame);
        assert (x.captured + [frame])[..|x.delivered|] == x.captured[..|x.delivered|];
      case BlockDone =>
        BlockDoneKeeps(x);
      case Read(frames) =>
        ReadKeeps(x, frames);
    }
  }

  /** A stuck ring delivers nothing, however often it is read. */
  lemma {:induction false} StuckDelivers(x: Session, ns: seq<nat>)
    requires Inv(x) && |x.captured| - |x.delivered| <= x.s.size && Stuck(x)
    requires x.delivered == x.captured[..|x.delivered|]
    ensures var y := Run(x, Reads(ns));
            && Inv(y) && y.s.size == x.s.size && y.captured == x.captured && y.acked == x.acked
            && y.delivered == x.delivered
  {
    if ns != [] {
      var before, n := ns[..|ns| - 1], ns[|ns| - 1];
      StuckDelivers(x, before);
      assert Reads(ns)[..|Reads(ns)| - 1] == Reads(before);
      var y := Run(x, Reads(before));
      assert Run(x, Reads(ns)) == Step(y, Read(n));
      ReadKeeps(y, n);
      ReadExact(y, n);
    }
  }

  /** After any timely run, reads that together ask for the whole lag bring the reader
      up to the last acknowledged block exactly if the ring is not stuck. */
  lemma CaptureCatchesUp(s: Stream, events: seq<Event>, ns: seq<nat>)
    requires Fresh(s) && Timely(Session(s, [], 0, []), events)
    requires var x := Run(Session(s, [], 0, []), events);
             |x.captured| - |x.delivered| <= s.size && Total(ns) >= x.acked - |x.delivered|
    ensures var x := Run(Session(s, [], 0, []), events);
            && x.acked <= |x.captured|
            && (Run(x, Reads(ns)).delivered == x.captured[..x.acked] <==> !Stuck(x))
  {
    var x := Run(Session(s, [], 0, []), events);
    CaptureIsFifo(s, events);
    if Stuck(x) {
      StuckDelivers(x, ns);
    } else {
      ReadsDeliver(x, ns);
    }
  }

  /** With each block interrupt handled within its successor's block, a lag of at
      most the ring minus one period before the call makes a read timely. */
  lemma LagBound(x: Session)
    requires Inv(x) && |x.captured| <= x.acked + x.s.period
    requires x.acked - |x.delivered| <= x.s.size - x.s.period
    ensures |x.captured| - |x.delivered| <= x.s.size
  {
  }

  // ----- the driver

  class Device {
    const size: nat
    const period: nat
    const area: array<Frame>
    var hwPtr: int
    var applPtr: int

    ghost function View(): Stream
      reads this, area
    {
      Stream(size, period, hwPtr, applPtr, area[..])
    }

    constructor (size: nat, period: nat)
      requires 0 < period <= size
      ensures Fresh(View()) && fresh(area)
    {
      this.size, this.period := size, period;
      area := new Frame[size + period];
      hwPtr, applPtr := 0, 0;
    }

    /** True where the source releases the readers' semaphore. */
    method RxDmaDone() returns (wake: bool)
      modifies this`hwPtr
      ensures View() == AfterRxDmaDone(old(View()))
      ensures wake <==> AvailDataLen(View()) >= period
    {
      hwPtr := hwPtr + period;
      if hwPtr > size {
        hwPtr := hwPtr - size;
      }
      var delta := hwPtr - applPtr;
      if delta < 0 {
        delta := delta + size;
      }
      wake := delta >= period;
    }

    method AudioRead(buffer: array<Frame>) returns (frames: int)
      requires View().Configured() && 0 <= applPtr <= size && 0 <= hwPtr <= size
      requires buffer != area
      modifies this`applPtr, buffer
      ensures var (s, data) := AfterRead(old(View()), buffer.Length);
              View() == s && frames == |data| && buffer[..] == Blit(old(buffer[..]), 0, data)
    {
      ghost var s := View();
      var avail := hwPtr - applPtr;
      if avail < 0 {
        avail := avail + size;
      }
      if avail > buffer.Length {
        avail := buffer.Length;
      }
      assert avail == ReadCount(s, buffer.Length);
      frames := avail;
      CopyOut(buffer, avail);
    }

    /** The copy of `fh_audio_read`, in two parts around the end of the ring. */
    method CopyOut(buffer: array<Frame>, avail: nat)
      requires View().Configured() && 0 <= applPtr <= size && 0 <= hwPtr <= size
      requires avail == ReadCount(View(), buffer.Length) && buffer != area
      modifies this`applPtr, buffer
      ensures var (s, data) := AfterRead(old(View()), buffer.Length);
              View() == s && avail == |data| && buffer[..] == Blit(old(buffer[..]), 0, data)
    {
      if avail + applPtr > size {
        var first := size - applPtr;
        var left := avail - first;
        BlitTwice(buffer[..], 0, area[applPtr..size], area[..left]);
        Memcpy(buffer, 0, area[applPtr..size]);
        Memcpy(buffer, first, area[..left]);
        applPtr := left;
      } else {
        Memcpy(buffer, 0, area[applPtr..applPtr + avail]);
        applPtr := applPtr + avail;
      }
    }
  }
}
