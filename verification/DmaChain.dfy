/** Linked-list descriptor chains of drivers/fh_dma.c: the one-shot chain of
    handle_single_transfer and the ring of rt_fh_dma_cyclic_prep. A link is the
    index of a descriptor in the channel's descriptor array. */
module DmaChain {
  import opened Common
  import opened Words
  import opened Bytes
  import opened DescRing
  import Playback
  import Capture

  datatype IncMode = Inc | Dec | Fix

  datatype Transfer = Transfer(
    srcAdd: Word, srcMode: IncMode, srcWidth: nat,
    dstAdd: Word, dstMode: IncMode, dstWidth: nat,
    len: nat)      // in items of the source width

  /** sar, dar, llp, the two link-enable bits of ctllo, and the block size in ctlhi. */
  datatype Lli = Lli(sar: Word, dar: Word, llp: Option<nat>, linked: bool, count: nat)

  /** FH81_CHANNEL_MAX_TRANSFER_SIZE is 4095 items. */
  function Blocks(len: nat): nat {
    (if len % 4095 != 0 then 1 else 0) + len / 4095
  }

  /** Bytes per item: 1 << width */
  function ItemBytes(width: nat): nat {
    Pow2(width)
  }

  function Addr(add: Word, mode: IncMode, offset: int): Word {
    match mode
    case Inc => Wrap(add + offset)
    case Dec => Wrap(add - offset)
    case Fix => add
  }

  function BlockSize(len: nat, i: nat): int {
    if i + 1 < Blocks(len) then 4095 else len - 4095 * i
  }

  function Entry(t: Transfer, first: nat, i: nat): Lli
    requires i < Blocks(t.len)
  {
    var more := i + 1 < Blocks(t.len);
    BlocksSpan(t.len, i);
    Lli(Addr(t.srcAdd, t.srcMode, i * 4095 * ItemBytes(t.srcWidth)),
        Addr(t.dstAdd, t.dstMode, i * 4095 * ItemBytes(t.dstWidth)),
        if more then Some(first + i + 1) else None, more, BlockSize(t.len, i))
  }

  /** Block sizes: full ones, then a last one of 1 to 4095 items that ends the transfer. */
  lemma BlocksSpan(len: nat, i: nat)
    requires i < Blocks(len)
    ensures 0 < BlockSize(len, i) <= 4095
    ensures i + 1 < Blocks(len) ==> 4095 * (i + 1) < len
    ensures i + 1 == Blocks(len) ==> 4095 * i + BlockSize(len, i) == len
  {
  }

  /** The loop's running total gives the block sizes. */
  lemma SizesAdd(len: nat, i: nat)
    requires i < Blocks(len)
    ensures var total := len - 4095 * i;
            var size := if total / 4095 != 0 then 4095 else total % 4095;
            total > 0 && size == BlockSize(len, i) && total - size == if i + 1 < Blocks(len) then len - 4095 * (i + 1) else 0
  {
    BlocksSpan(len, i);
  }

  lemma AddrTwice(add: Word, mode: IncMode, a: int, b: int)
    ensures Addr(Addr(add, mode, a), mode, b) == Addr(add, mode, a + b)
  {
    match mode
    case Inc =>
      WrapTwice(add + a, b);
    case Dec =>
      WrapTwice(add - a, -b);
    case Fix =>
  }

  lemma WrapTwice(x: int, y: int)
    ensures Wrap(Wrap(x) + y) == Wrap(x + y)
  {
    var q, r := x / 0x1_0000_0000, (Wrap(x) + y) % 0x1_0000_0000;
    DivUnique(x + y, 0x1_0000_0000, q + (Wrap(x) + y) / 0x1_0000_0000, r);
  }

  // ----- what the controller does with a chain

  type Access = (Word, Word)    // source and destination address of one item

  /** The item-by-item accesses of one unchunked transfer of `len` items. */
  function Flat(t: Transfer): (a: seq<Access>)
    ensures |a| == t.len
  {
    seq(t.len, k requires 0 <= k < t.len => FlatItem(t, k))
  }

  function FlatItem(t: Transfer, k: nat): Access {
    (Addr(t.srcAdd, t.srcMode, k * ItemBytes(t.srcWidth)), Addr(t.dstAdd, t.dstMode, k * ItemBytes(t.dstWidth)))
  }

  /** The accesses of one descriptor's block. Source and destination items pair up
      when the widths are equal; for other widths see DestinationStartExact. */
  function BlockAccesses(t: Transfer, e: Lli): seq<Access> {
    seq(e.count, j requires 0 <= j < e.count =>
      (Addr(e.sar, t.srcMode, j * ItemBytes(t.srcWidth)), Addr(e.dar, t.dstMode, j * ItemBytes(t.dstWidth))))
  }

  /** Executing the chain in `mem` from descriptor `at`; None while it goes on
      for more than `fuel` blocks or runs off the descriptors. */
  function Execute(t: Transfer, mem: seq<Lli>, at: nat, fuel: nat): Option<seq<Access>>
    decreases fuel
  {
    if fuel == 0 || at >= |mem| then None
    else if !mem[at].linked then Some(BlockAccesses(t, mem[at]))
    else if mem[at].llp.None? then None
    else
      match Execute(t, mem, mem[at].llp.value, fuel - 1)
      case None => None
      case Some(rest) => Some(BlockAccesses(t, mem[at]) + rest)
  }

  /** `mem` holds the one-shot chain of `t` from descriptor `first` on. */
  predicate HoldsChain(t: Transfer, mem: seq<Lli>, first: nat) {
    && first + Blocks(t.len) <= |mem|
    && forall i :: 0 <= i < Blocks(t.len) ==> mem[first + i] == Entry(t, first, i)
  }

  lemma BlockIsSlice(t: Transfer, first: nat, i: nat)
    requires i < Blocks(t.len)
    ensures 0 < BlockSize(t.len, i) && 4095 * i + BlockSize(t.len, i) <= t.len
    ensures BlockAccesses(t, Entry(t, first, i)) == Flat(t)[4095 * i..4095 * i + BlockSize(t.len, i)]
  {
    BlocksSpan(t.len, i);
    var e := Entry(t, first, i);
    forall j | 0 <= j < e.count
      ensures BlockAccesses(t, e)[j] == Flat(t)[4095 * i + j]
    {
      ItemAddress(t.srcAdd, t.srcMode, i, j, ItemBytes(t.srcWidth));
      ItemAddress(t.dstAdd, t.dstMode, i, j, ItemBytes(t.dstWidth));
    }
  }

  lemma ItemAddress(add: Word, mode: IncMode, i: nat, j: nat, w: nat)
    ensures Addr(Addr(add, mode, i * 4095 * w), mode, j * w) == Addr(add, mode, (4095 * i + j) * w)
  {
    AddrTwice(add, mode, i * 4095 * w, j * w);
    assert (4095 * i + j) * w == i * 4095 * w + j * w;
  }

  lemma {:induction false} ExecuteFrom(t: Transfer, mem: seq<Lli>, first: nat, i: nat, fuel: nat)
    requires HoldsChain(t, mem, first) && i < Blocks(t.len)
    ensures 4095 * i < t.len
    ensures Execute(t, mem, first + i, fuel) ==
            if fuel >= Blocks(t.len) - i then Some(Flat(t)[4095 * i..]) else None
    decreases Blocks(t.len) - i
  {
    BlocksSpan(t.len, i);
    BlockIsSlice(t, first, i);
    assert mem[first + i] == Entry(t, first, i);
    if i + 1 < Blocks(t.len) && fuel > 0 {
      ExecuteFrom(t, mem, first, i + 1, fuel - 1);
      assert Flat(t)[4095 * i..] == Flat(t)[4095 * i..4095 * i + 4095] + Flat(t)[4095 * (i + 1)..];
    } else if fuel > 0 {
      assert Flat(t)[4095 * i..] == Flat(t)[4095 * i..t.len];
    }
  }

  /** Executing the chain from its head does, item by item, what one unchunked
      transfer would do, in exactly ceil(len / 4095) blocks. */
  lemma ChainIsFlat(t: Transfer, mem: seq<Lli>, first: nat, fuel: nat)
    requires t.len > 0 && HoldsChain(t, mem, first) && t.srcWidth == t.dstWidth
    ensures Execute(t, mem, first, fuel) == if fuel >= Blocks(t.len) then Some(Flat(t)) else None
    ensures 4095 * (Blocks(t.len) - 1) < t.len <= 4095 * Blocks(t.len)
  {
    ExecuteFrom(t, mem, first, 0, fuel);
    BlocksSpan(t.len, Blocks(t.len) - 1);
    assert Flat(t)[0..] == Flat(t);
  }

  /** The source side of a run of accesses; it does not depend on the destination's width. */
  function Sources(a: seq<Access>): (r: seq<Word>)
    ensures |r| == |a| && forall k :: 0 <= k < |a| ==> r[k] == a[k].0
  {
    seq(|a|, k requires 0 <= k < |a| => a[k].0)
  }

  /** Whatever the widths, the chain reads what one unchunked transfer would. */
  lemma ChainReadsFlat(t: Transfer, mem: seq<Lli>, first: nat, fuel: nat)
    requires t.len > 0 && HoldsChain(t, mem, first) && fuel >= Blocks(t.len)
    ensures var a := Execute(t, mem, first, fuel);
            && a.Some? && |a.value| == t.len
            && forall k :: 0 <= k < t.len ==>
                 Sources(a.value)[k] == Addr(t.srcAdd, t.srcMode, k * ItemBytes(t.srcWidth))
  {
    ExecuteFrom(t, mem, first, 0, fuel);
    assert Flat(t)[0..] == Flat(t);
  }

  lemma ItemBytesAre(width: nat)
    requires width <= 2
    ensures ItemBytes(width) == if width == 0 then 1 else if width == 1 then 2 else 4
  {
    assert Pow2(0) == 1 && Pow2(1) == 2 && Pow2(2) == 4;
  }

  /** In bytes: item `k` of what a chain reads lies `k` items of 1, 2 or 4 bytes above
      the source address, or below it, or at it. */
  lemma ReadsInBytes(t: Transfer, mem: seq<Lli>, first: nat, fuel: nat, k: nat)
    requires HoldsChain(t, mem, first) && fuel >= Blocks(t.len) && k < t.len && t.srcWidth <= 2
    ensures var a := Execute(t, mem, first, fuel);
            var d := if t.srcWidth == 0 then k else if t.srcWidth == 1 then 2 * k else 4 * k;
            && a.Some? && |a.value| == t.len
            && a.value[k].0 == match t.srcMode
                               case Inc => (t.srcAdd + d) % 0x1_0000_0000
                               case Dec => (t.srcAdd - d) % 0x1_0000_0000
                               case Fix => t.srcAdd
  {
    ChainReadsFlat(t, mem, first, fuel);
    var a := Execute(t, mem, first, fuel).value;
    assert Sources(a)[k] == a[k].0;
    ItemBytesAre(t.srcWidth);
  }

  /** And so is item `k` of what it writes, for equal widths. */
  lemma WritesInBytes(t: Transfer, mem: seq<Lli>, first: nat, fuel: nat, k: nat)
    requires HoldsChain(t, mem, first) && fuel >= Blocks(t.len) && k < t.len
    requires t.srcWidth == t.dstWidth <= 2
    ensures var a := Execute(t, mem, first, fuel);
            var d := if t.dstWidth == 0 then k else if t.dstWidth == 1 then 2 * k else 4 * k;
            && a.Some? && |a.value| == t.len
            && a.value[k].1 == match t.dstMode
                               case Inc => (t.dstAdd + d) % 0x1_0000_0000
                               case Dec => (t.dstAdd - d) % 0x1_0000_0000
                               case Fix => t.dstAdd
  {
    ChainIsFlat(t, mem, first, fuel);
    assert Flat(t)[k] == FlatItem(t, k);
    ItemBytesAre(t.dstWidth);
  }

  /** The items read out of a byte buffer that begins at `base`. */
  function Fetched(buffer: seq<Byte>, base: Word, a: seq<Access>): (r: seq<Byte>)
    requires forall k :: 0 <= k < |a| ==> base <= a[k].0 < base + |buffer|
    ensures |r| == |a|
  {
    seq(|a|, k requires 0 <= k < |a| => buffer[a[k].0 - base])
  }

  /** The byte buffer at `base` once `items` have been written to it, one by one. */
  function Stored(buffer: seq<Byte>, base: Word, a: seq<Access>, items: seq<Byte>): (r: seq<Byte>)
    requires |items| == |a|
    requires forall k :: 0 <= k < |a| ==> base <= a[k].1 < base + |buffer|
    ensures |r| == |buffer|
  {
    if a == [] then buffer
    else
      var n := |a| - 1;
      Stored(buffer, base, a[..n], items[..n])[a[n].1 - base := items[n]]
  }

  /** An 8-bit transfer out of a buffer takes each of its bytes once, in order. */
  lemma SendsBuffer(t: Transfer, mem: seq<Lli>, first: nat, fuel: nat, buffer: seq<Byte>)
    requires HoldsChain(t, mem, first) && fuel >= Blocks(t.len) && t.len > 0
    requires t.srcMode == Inc && t.srcWidth == 0 && |buffer| == t.len && t.srcAdd + t.len <= 0x1_0000_0000
    ensures var a := Execute(t, mem, first, fuel);
            && a.Some? && (forall k :: 0 <= k < |a.value| ==> t.srcAdd <= a.value[k].0 < t.srcAdd + |buffer|)
            && Fetched(buffer, t.srcAdd, a.value) == buffer
  {
    ReadsInBytes(t, mem, first, fuel, 0);
    var a := Execute(t, mem, first, fuel).value;
    forall k | 0 <= k < |a|
      ensures a[k].0 == t.srcAdd + k
    {
      ReadsInBytes(t, mem, first, fuel, k);
      NoWrap(t.srcAdd + k);
    }
    FetchedInOrder(buffer, t.srcAdd, a);
  }

  lemma NoWrap(x: nat)
    requires x < 0x1_0000_0000
    ensures x % 0x1_0000_0000 == x
  {
  }

  lemma FetchedInOrder(buffer: seq<Byte>, base: Word, a: seq<Access>)
    requires |a| == |buffer| && forall k :: 0 <= k < |a| ==> a[k].0 == base + k
    ensures Fetched(buffer, base, a) == buffer
  {
  }

  /** An 8-bit transfer into a buffer leaves the items there in the order they came. */
  lemma ReceivesBuffer(t: Transfer, mem: seq<Lli>, first: nat, fuel: nat, buffer: seq<Byte>, items: seq<Byte>)
    requires HoldsChain(t, mem, first) && fuel >= Blocks(t.len) && t.len > 0 && t.srcWidth == t.dstWidth == 0
    requires t.dstMode == Inc && |buffer| == |items| == t.len && t.dstAdd + t.len <= 0x1_0000_0000
    ensures var a := Execute(t, mem, first, fuel);
            && a.Some? && |a.value| == t.len
            && (forall k :: 0 <= k < |a.value| ==> t.dstAdd <= a.value[k].1 < t.dstAdd + |buffer|)
            && Stored(buffer, t.dstAdd, a.value, items) == items
  {
    WritesInBytes(t, mem, first, fuel, 0);
    var a := Execute(t, mem, first, fuel).value;
    forall k | 0 <= k < |a|
      ensures a[k].1 == t.dstAdd + k
    {
      WritesInBytes(t, mem, first, fuel, k);
      NoWrap(t.dstAdd + k);
    }
    StoredInOrder(buffer, t.dstAdd, a, items);
    StoredWhole(buffer, items);
  }

  lemma StoredWhole(buffer: seq<Byte>, items: seq<Byte>)
    requires |items| == |buffer|
    ensures items + buffer[|items|..] == items
  {
  }

  lemma {:induction false} StoredInOrder(buffer: seq<Byte>, base: Word, a: seq<Access>, items: seq<Byte>)
    requires |items| == |a| <= |buffer| && forall k :: 0 <= k < |a| ==> a[k].1 == base + k
    ensures Stored(buffer, base, a, items) == items + buffer[|items|..]
  {
    if a != [] {
      var n := |a| - 1;
      StoredInOrder(buffer, base, a[..n], items[..n]);
      OneMoreStored(buffer, items, n);
    } else {
      assert items + buffer[0..] == buffer;
    }
  }

  lemma OneMoreStored(buffer: seq<Byte>, items: seq<Byte>, n: nat)
    requires |items| == n + 1 <= |buffer|
    ensures (items[..n] + buffer[n..])[n := items[n]] == items + buffer[|items|..]
  {
  }

  /** Source and destination bytes go together: a block starts at the destination
      byte that the bytes before it lead to. The source scales the destination
      step by the destination width, so this needs equal widths, a fixed
      destination or a single block. */
  lemma DestinationStartExact(t: Transfer, first: nat)
    requires t.len > 0 && t.srcWidth <= 2 && t.dstWidth <= 2
    ensures (forall i :: 0 <= i < Blocks(t.len) ==>
               Entry(t, first, i).dar == Addr(t.dstAdd, t.dstMode, i * 4095 * ItemBytes(t.srcWidth)))
            <==> t.srcWidth == t.dstWidth || t.dstMode == Fix || t.len <= 4095
  {
    if Blocks(t.len) > 1 && t.srcWidth != t.dstWidth && t.dstMode != Fix {
      assert Pow2(0) == 1 && Pow2(1) == 2 && Pow2(2) == 4;
      var s, d := 4095 * ItemBytes(t.srcWidth), 4095 * ItemBytes(t.dstWidth);
      assert Entry(t, first, 1).dar == Addr(t.dstAdd, t.dstMode, d);
      assert 0 < s - d < 20000 || 0 < d - s < 20000;
      assert Addr(t.dstAdd, t.dstMode, d) != Addr(t.dstAdd, t.dstMode, s);
    }
  }

  /** The descriptor-filling loop of handle_single_transfer. */
  method FillSingle(lli: array<Lli>, first: nat, t: Transfer)
    requires t.len > 0 && first + Blocks(t.len) <= lli.Length
    modifies lli
    ensures HoldsChain(t, lli[..], first)
    ensures forall k :: 0 <= k < lli.Length && !(first <= k < first + Blocks(t.len)) ==> lli[k] == old(lli[k])
  {
    var lliSize := Blocks(t.len);
    var total := t.len;
    var i := 0;
    while i < lliSize
      invariant 0 <= i <= lliSize == Blocks(t.len)
      invariant total == if i < lliSize then t.len - 4095 * i else 0
      invariant forall k :: 0 <= k < i ==> lli[first + k] == Entry(t, first, k)
      invariant forall k :: 0 <= k < lli.Length && !(first <= k < first + i) ==> lli[k] == old(lli[k])
    {
      SizesAdd(t.len, i);
      var dst := Addr(t.dstAdd, t.dstMode, i * 4095 * ItemBytes(t.dstWidth));
      var src := Addr(t.srcAdd, t.srcMode, i * 4095 * ItemBytes(t.srcWidth));
      var size := if total / 4095 != 0 then 4095 else total % 4095;
      total := total - size;
      lli[first + i] := Lli(src, dst, if total > 0 then Some(first + i + 1) else None, total > 0, size);
      assert lli[first + i] == Entry(t, first, i);
      i := i + 1;
    }
  }

  // ----- the cyclic ring

  function RingEntry(t: Transfer, periodLen: nat, periods: nat, first: nat, i: nat): Lli {
    Lli(Addr(t.srcAdd, t.srcMode, i * periodLen * ItemBytes(t.srcWidth)),
        Addr(t.dstAdd, t.dstMode, i * periodLen * ItemBytes(t.dstWidth)),
        Some(if i + 1 == periods then first else first + i + 1), true, periodLen)
  }

  predicate HoldsRing(t: Transfer, periodLen: nat, periods: nat, mem: seq<Lli>, first: nat) {
    && first + periods <= |mem|
    && forall i :: 0 <= i < periods ==> mem[first + i] == RingEntry(t, periodLen, periods, first, i)
  }

  /** The descriptor reached by following `k` links. */
  function Follow(mem: seq<Lli>, at: nat, k: nat): Option<nat> {
    if k == 0 then Some(at)
    else
      match Follow(mem, at, k - 1)
      case None => None
      case Some(here) => if here < |mem| && mem[here].linked then mem[here].llp else None
  }

  lemma {:induction false} RingFollows(t: Transfer, periodLen: nat, periods: nat, mem: seq<Lli>, first: nat, k: nat)
    requires periods > 0 && HoldsRing(t, periodLen, periods, mem, first)
    ensures k % periods < periods && Follow(mem, first, k) == Some(first + k % periods)
  {
    if k == 0 {
      DivUnique(0, periods, 0, 0);
    } else {
      RingFollows(t, periodLen, periods, mem, first, k - 1);
      var here := (k - 1) % periods;
      NextRemainder(k - 1, periods);
      assert mem[first + here] == RingEntry(t, periodLen, periods, first, here);
      assert Follow(mem, first, k) == mem[first + here].llp;
    }
  }

  /** Block k of a cyclic transfer, for every k, is descriptor k mod periods of the
      ring and covers that period of the buffer. */
  lemma RingTurns(t: Transfer, periodLen: nat, periods: nat, mem: seq<Lli>, first: nat, k: nat)
    requires periods > 0 && HoldsRing(t, periodLen, periods, mem, first)
    ensures k % periods < periods
    ensures Follow(mem, first, k) == Some(first + k % periods)
    ensures var e := mem[first + k % periods];
            && e.count == periodLen
            && e.sar == Addr(t.srcAdd, t.srcMode, k % periods * periodLen * ItemBytes(t.srcWidth))
            && e.dar == Addr(t.dstAdd, t.dstMode, k % periods * periodLen * ItemBytes(t.dstWidth))
  {
    RingFollows(t, periodLen, periods, mem, first, k);
    var j := k % periods;
    assert mem[first + j] == RingEntry(t, periodLen, periods, first, j);
  }

  /** After k callbacks the playback driver's `hw_ptr` is where block k starts in
      the ring area, the end of the ring standing for its start. */
  lemma HwPtrFollowsRing(s: Playback.Stream, k: nat)
    requires s.Configured() && s.hwPtr == 0
    ensures var start := k % s.count * s.period;
            var p := Playback.AfterBlocks(s, k).hwPtr;
            0 <= start < s.size && (p == start || (p == s.size && start == 0))
  {
    Playback.BlocksMove(s, k);
    Playback.SlotFits(s, k % s.count);
  }

  /** And so is the capture driver's, for a ring of `count` periods. */
  lemma CapturePtrFollowsRing(s: Capture.Stream, count: nat, k: nat)
    requires s.Configured() && s.hwPtr == 0 && count > 0 && s.size == count * s.period
    ensures var start := k % count * s.period;
            var p := Capture.AfterBlocks(s, k).hwPtr;
            0 <= start < s.size && (p == start || (p == s.size && start == 0))
  {
    Capture.BlocksMove(s, k);
    PeriodRemainder(k, count, s.period);
  }

  lemma PeriodRemainder(k: nat, count: nat, period: nat)
    requires count > 0 && period > 0
    ensures 0 <= k % count * period < count * period
    ensures k * period % (count * period) == k % count * period
  {
    var q, j, n := k / count, k % count, count * period;
    Distribute(q, count, j, period);
    Playback.SlotsApart(j, count, period);
    MulAtLeast(j + 1, period);
    DivUnique(k * period, n, q, j * period);
  }

  lemma Distribute(q: nat, count: nat, j: nat, period: nat)
    ensures (q * count + j) * period == q * (count * period) + j * period
    ensures j * period >= 0
  {
  }

  /** The period that the playback model takes as block k's content is what block
      k of the ring of audio_request_playback_channel reads: 32-bit items from the
      area on, one period of them. */
  lemma BlockReadsSlot(t: Transfer, s: Playback.Stream, mem: seq<Lli>, first: nat, k: nat, j: nat)
    requires s.Configured() && HoldsRing(t, s.period, s.count, mem, first)
    requires t.srcMode == Inc && t.srcWidth == 2 && j < s.period
    ensures var e := mem[first + k % s.count];
            && e.count == s.period
            && Addr(e.sar, Inc, 4 * j) == Wrap(t.srcAdd + 4 * (k % s.count * s.period) + 4 * j)
  {
    RingTurns(t, s.period, s.count, mem, first, k);
    var off := k % s.count * s.period * ItemBytes(t.srcWidth);
    assert Pow2(1) == 2 && Pow2(2) == 4;
    assert off == 4 * (k % s.count * s.period);
    AddrTwice(t.srcAdd, Inc, off, 4 * j);
  }

  /** The descriptor-filling part of rt_fh_dma_cyclic_prep; `bufLen` is a multiple
      of `periodLen` by the source's assertion. */
  method FillRing(lli: array<Lli>, first: nat, t: Transfer, periodLen: nat)
    requires 0 < periodLen <= t.len && t.len % periodLen == 0
    requires first + t.len / periodLen <= lli.Length
    modifies lli
    ensures HoldsRing(t, periodLen, t.len / periodLen, lli[..], first)
    ensures forall k :: 0 <= k < lli.Length && !(first <= k < first + t.len / periodLen) ==> lli[k] == old(lli[k])
  {
    var periods := t.len / periodLen;
    assert periods >= 1;
    var i := 0;
    while i < periods
      invariant 0 <= i <= periods
      invariant forall k :: 0 <= k < i ==>
        lli[first + k] == RingEntry(t, periodLen, periods, first, k).(llp := Some(first + k + 1))
      invariant forall k :: 0 <= k < lli.Length && !(first <= k < first + i) ==> lli[k] == old(lli[k])
    {
      lli[first + i] := Lli(Addr(t.srcAdd, t.srcMode, i * periodLen * ItemBytes(t.srcWidth)),
                            Addr(t.dstAdd, t.dstMode, i * periodLen * ItemBytes(t.dstWidth)),
                            Some(first + i + 1), true, periodLen);
      i := i + 1;
    }
    lli[first + periods - 1] := lli[first + periods - 1].(llp := Some(first));
  }
}
