/** The transmit and receive descriptor rings of drivers/fh_gmac.c, in runs in
    which no error resets them. */
module Gmac {
  import opened Common
  import opened Bytes

  type Frame = seq<Byte>

  // ----- a ring as a queue of frames

  /** Both rings seen alike: a slot holds the frame its descriptor hands to the
      consuming side, which stands at `take`, or is free for the producing side,
      which stands at `put`. `entered` and `left` are all frames ever put and taken. */
  datatype Ring = Ring(slots: seq<Option<Frame>>, put: nat, take: nat, entered: seq<Frame>, left: seq<Frame>)

  /** The slot after `i` as the descriptors are chained. */
  function Next(i: int, n: int): int {
    if i + 1 == n then 0 else i + 1
  }

  /** The slot `p` places after slot `i` of `n`. */
  function At(i: int, p: int, n: int): int {
    if i + p < n then i + p else i + p - n
  }

  lemma SoftwareNext(i: nat, n: nat)
    requires i < n
    ensures (i + 1) % n == Next(i, n)
  {
  }

  /** The full slots are one cyclic interval from `take` up to `put`, and hold in
      order the frames that entered and have not left. */
  predicate Inv(r: Ring) {
    var n, k := |r.slots|, |r.entered| - |r.left|;
    && r.take < n && 0 <= k <= n && r.put == At(r.take, k, n)
    && r.left <= r.entered
    && forall p {:trigger At(r.take, p, n)} :: 0 <= p < n ==>
         r.slots[At(r.take, p, n)] == if p < k then Some(r.entered[|r.left| + p]) else None
  }

  function AfterPut(r: Ring, f: Frame): Ring {
    if r.put < |r.slots| && r.slots[r.put].None? then
      r.(slots := r.slots[r.put := Some(f)], put := Next(r.put, |r.slots|), entered := r.entered + [f])
    else r
  }

  function AfterTake(r: Ring): Ring {
    if r.take < |r.slots| && r.slots[r.take].Some? then
      r.(slots := r.slots[r.take := None], take := Next(r.take, |r.slots|), left := r.left + [r.slots[r.take].value])
    else r
  }

  lemma PutKeeps(r: Ring, f: Frame)
    requires Inv(r)
    ensures Inv(AfterPut(r, f))
    ensures r.slots[r.put].None? <==> |r.entered| - |r.left| < |r.slots|
  {
    var n, k, u := |r.slots|, |r.entered| - |r.left|, AfterPut(r, f);
    assert At(r.take, n, n) == At(r.take, 0, n);
    if k < n {
      forall p | 0 <= p < n
        ensures u.slots[At(u.take, p, n)] == if p < k + 1 then Some(u.entered[|u.left| + p]) else None
      {
        assert r.slots[At(r.take, p, n)] == if p < k then Some(r.entered[|r.left| + p]) else None;
      }
    }
  }

  lemma TakeKeeps(r: Ring)
    requires Inv(r)
    ensures Inv(AfterTake(r))
    ensures r.slots[r.take].Some? <==> |r.left| < |r.entered|
  {
    var n, k, u := |r.slots|, |r.entered| - |r.left|, AfterTake(r);
    assert r.slots[At(r.take, 0, n)] == if 0 < k then Some(r.entered[|r.left|]) else None;
    if k > 0 {
      forall p | 0 <= p < n
        ensures u.slots[At(u.take, p, n)] == if p < k - 1 then Some(u.entered[|u.left| + p]) else None
      {
        assert At(u.take, p, n) == if p < n - 1 then At(r.take, p + 1, n) else r.take;
      }
    }
  }

  lemma PutEnters(r: Ring, f: Frame)
    requires Inv(r)
    ensures AfterPut(r, f).left == r.left
    ensures AfterPut(r, f).entered == if |r.entered| - |r.left| < |r.slots| then r.entered + [f] else r.entered
  {
    PutKeeps(r, f);
  }

  lemma TakeLeaves(r: Ring)
    requires Inv(r)
    ensures AfterTake(r).entered == r.entered
    ensures AfterTake(r).left == if |r.left| < |r.entered| then r.left + [r.entered[|r.left|]] else r.left
  {
    TakeKeeps(r);
    assert r.slots[At(r.take, 0, |r.slots|)] == if |r.left| < |r.entered| then Some(r.entered[|r.left|]) else None;
  }

  datatype Event = Put(frame: Frame) | Take

  function Run(r: Ring, events: seq<Event>): Ring {
    if events == [] then r
    else
      var u := Run(r, events[..|events| - 1]);
      match events[|events| - 1]
      case Put(f) => AfterPut(u, f)
      case Take => AfterTake(u)
  }

  function Empty(n: nat): Ring {
    Ring(seq(n, _ => None), 0, 0, [], [])
  }

  lemma {:induction false} RunKeeps(n: nat, events: seq<Event>)
    requires n > 0
    ensures Inv(Run(Empty(n), events)) && |Run(Empty(n), events).slots| == n
  {
    if events != [] {
      var u := Run(Empty(n), events[..|events| - 1]);
      RunKeeps(n, events[..|events| - 1]);
      match events[|events| - 1] {
        case Put(f) => PutKeeps(u, f);
        case Take => TakeKeeps(u);
      }
    }
  }

  /** How many frames are underway in a ring of `n` slots. */
  function Underway(n: nat, events: seq<Event>): nat {
    if events == [] then 0
    else
      var k := Underway(n, events[..|events| - 1]);
      match events[|events| - 1]
      case Put(_) => if k < n then k + 1 else k
      case Take => if k > 0 then k - 1 else k
  }

  /** The frames put while there was room, in order. */
  function Admitted(n: nat, events: seq<Event>): seq<Frame> {
    if events == [] then []
    else
      var before := events[..|events| - 1];
      match events[|events| - 1]
      case Put(f) => if Underway(n, before) < n then Admitted(n, before) + [f] else Admitted(n, before)
      case Take => Admitted(n, before)
  }

  /** Whatever the interleaving: frames come out in the order they went in, each
      once; a frame is admitted exactly while fewer than `n` are underway; and a
      slot holds a frame exactly if it is among the `entered - left` slots from `take` on. */
  lemma {:induction false} InOrderOnce(n: nat, events: seq<Event>)
    requires n > 0
    ensures var r := Run(Empty(n), events);
            && r.entered == Admitted(n, events)
            && r.left <= r.entered && |r.entered| - |r.left| == Underway(n, events) <= n
            && |r.slots| == n && r.take < n
            && forall p :: 0 <= p < n ==>
                 (r.slots[At(r.take, p, n)].Some? <==> p < |r.entered| - |r.left|)
  {
    RunKeeps(n, events);
    if events != [] {
      var before := events[..|events| - 1];
      InOrderOnce(n, before);
      RunKeeps(n, before);
      match events[|events| - 1] {
        case Put(f) => PutEnters(Run(Empty(n), before), f);
        case Take => TakeLeaves(Run(Empty(n), before));
      }
    }
  }

  // ----- the rings in memory

  /** A descriptor: who owns it, the length field in use (11 bits of buffer1_size to
      send, frame_length when received), its buffer as an offset and the index of
      the next descriptor. */
  datatype Desc = Desc(own: bool, len: nat, buffer: nat, next: nat)

  /** What a descriptor gives the hardware to send; the length field has 11 bits. */
  function Wire(f: Frame): (r: Frame)
    requires |f| <= 2048
    ensures r == f <==> |f| <= 2047
  {
    f[..|f| % 2048]
  }

  function Flat(pbufs: seq<seq<Byte>>): seq<Byte> {
    if pbufs == [] then [] else Flat(pbufs[..|pbufs| - 1]) + pbufs[|pbufs| - 1]
  }

  /** The frame in descriptor `d`'s buffer. */
  function FrameIn(d: Desc, buf: seq<Byte>): Frame {
    if d.buffer + d.len <= |buf| then buf[d.buffer..d.buffer + d.len] else []
  }

  /** The queue view of a ring whose descriptors hold a frame when own == `full`. */
  function Slots(ring: seq<Desc>, buf: seq<Byte>, full: bool): (r: seq<Option<Frame>>)
    ensures |r| == |ring|
    ensures forall i {:trigger r[i]} :: 0 <= i < |r| ==>
      r[i] == if ring[i].own == full then Some(FrameIn(ring[i], buf)) else None
  {
    seq(|ring|, i requires 0 <= i < |ring| =>
      if ring[i].own == full then Some(FrameIn(ring[i], buf)) else None)
  }

  /** The descriptors are chained in a circle and every one in the consumer's hands
      points into its own 2048-byte buffer. */
  predicate Laid(ring: seq<Desc>, buf: seq<Byte>, full: bool) {
    && |buf| == 2048 * |ring|
    && forall i {:trigger ring[i]} :: 0 <= i < |ring| ==>
         && ring[i].next == Next(i, |ring|)
         && (ring[i].own == full ==> ring[i].buffer == 2048 * i && ring[i].len < 2048)
  }

  /** Filling the buffer of slot `c` and handing the slot over changes that slot's
      frame alone. */
  lemma HandOver(ring: seq<Desc>, buf: seq<Byte>, full: bool, c: nat, f: Frame, d: Desc)
    requires Laid(ring, buf, full) && c < |ring| && |f| <= 2048 && d.len <= |f| && d.len < 2048
    requires d == ring[c].(own := full, len := d.len, buffer := 2048 * c)
    ensures Laid(ring[c := d], Blit(buf, 2048 * c, f), full)
    ensures Slots(ring[c := d], Blit(buf, 2048 * c, f), full)
            == Slots(ring, buf, full)[c := Some(f[..d.len])]
  {
    var ring', buf' := ring[c := d], Blit(buf, 2048 * c, f);
    assert FrameIn(d, buf') == f[..d.len];
    forall i | 0 <= i < |ring| && i != c && ring[i].own == full
      ensures FrameIn(ring'[i], buf') == FrameIn(ring[i], buf)
    {
      assert ring[i].buffer == 2048 * i;
    }
  }

  /** Handing a slot back changes that slot alone. */
  lemma HandBack(ring: seq<Desc>, buf: seq<Byte>, full: bool, c: nat)
    requires Laid(ring, buf, full) && c < |ring|
    ensures Laid(ring[c := ring[c].(own := !full)], buf, full)
    ensures Slots(ring[c := ring[c].(own := !full)], buf, full) == Slots(ring, buf, full)[c := None]
  {
  }

  datatype Outcome = Sent | Busy | Refused

  /** The transmit ring: a descriptor with own set is the hardware's, to send. */
  class Transmitter {
    const ring: array<Desc>
    const buffer: array<Byte>
    var cur: nat
    var hwCur: nat
    ghost var sending: seq<Frame>
    ghost var sent: seq<Frame>

    ghost function View(): Ring
      reads this, ring, buffer
    {
      Ring(Slots(ring[..], buffer[..], true), cur, hwCur, sending, sent)
    }

    ghost predicate Valid()
      reads this, ring, buffer
    {
      Laid(ring[..], buffer[..], true) && Inv(View())
    }

    /** tx_desc_init */
    constructor (n: nat)
      requires n > 0
      ensures Valid() && fresh(ring) && fresh(buffer) && View() == Empty(n)
    {
      var d := new Desc[n](i => Desc(false, 0, 0, Next(i, n)));
      ring := d;
      buffer := new Byte[2048 * n](_ => 0);
      cur, hwCur, sending, sent := 0, 0, [], [];
      new;
      assert Slots(ring[..], buffer[..], true) == Empty(n).slots;
    }

    /** rt_fh81_gmac_tx on a packet in pieces. `Refused` stands for the assertion on
        an overlong packet, `Busy` for the branch that resets the ring. */
    method Send(pbufs: seq<seq<Byte>>) returns (r: Outcome)
      requires Valid()
      modifies this`cur, this`sending, ring, buffer
      ensures Valid()
      ensures r.Refused? <==> |Flat(pbufs)| > 2048
      ensures r.Busy? <==> |Flat(pbufs)| <= 2048 && old(ring[cur].own)
      ensures r.Sent? ==> View() == AfterPut(old(View()), Wire(Flat(pbufs)))
      ensures !r.Sent? ==> View() == old(View())
      ensures forall i :: 0 <= i < ring.Length && old(ring[i].own) ==> ring[i] == old(ring[i])
      ensures forall i :: 0 <= i < buffer.Length && !(2048 * old(cur) <= i < 2048 * old(cur) + 2048) ==>
                buffer[i] == old(buffer[i])
    {
      var totLen := TotLen(pbufs);
      if totLen > 2048 {
        return Refused;
      }
      if ring[cur].own {
        return Busy;
      }
      Enqueue(pbufs, totLen);
      r := Sent;
    }

    /** The rest of rt_fh81_gmac_tx, once a descriptor is got. */
    method Enqueue(pbufs: seq<seq<Byte>>, totLen: nat)
      requires Valid() && totLen == |Flat(pbufs)| <= 2048 && !ring[cur].own
      modifies this`cur, this`sending, ring, buffer
      ensures Valid()
      ensures View() == AfterPut(old(View()), Wire(Flat(pbufs)))
      ensures forall i :: 0 <= i < ring.Length && i != old(cur) ==> ring[i] == old(ring[i])
      ensures buffer[..] == Blit(old(buffer[..]), 2048 * old(cur), Flat(pbufs))
    {
      ghost var was, bytes, view := ring[..], buffer[..], View();
      PutKeeps(view, Wire(Flat(pbufs)));
      var at := cur;
      CopyPbufs(pbufs, 2048 * at);
      var d := ring[at].(len := totLen % 2048, buffer := 2048 * at, own := true);
      ring[at] := d;
      HandOver(was, bytes, true, at, Flat(pbufs), d);
      assert ring[..] == was[at := d];
      SoftwareNext(at, ring.Length);
      cur := (cur + 1) % ring.Length;
      sending := sending + [Wire(Flat(pbufs))];
      assert View() == AfterPut(view, Wire(Flat(pbufs)));
    }

    method TotLen(pbufs: seq<seq<Byte>>) returns (n: nat)
      ensures n == |Flat(pbufs)|
    {
      n := 0;
      for i := 0 to |pbufs|
        invariant n == |Flat(pbufs[..i])|
      {
        assert pbufs[..i + 1][..i] == pbufs[..i];
        n := n + |pbufs[i]|;
      }
      assert pbufs[..|pbufs|] == pbufs;
    }

    method CopyPbufs(pbufs: seq<seq<Byte>>, at: nat)
      requires at + |Flat(pbufs)| <= buffer.Length
      modifies buffer
      ensures buffer[..] == Blit(old(buffer[..]), at, Flat(pbufs))
    {
      var to := at;
      FlatBounds(pbufs);
      for i := 0 to |pbufs|
        invariant to == at + |Flat(pbufs[..i])|
        invariant buffer[..] == Blit(old(buffer[..]), at, Flat(pbufs[..i]))
      {
        assert pbufs[..i + 1][..i] == pbufs[..i];
        BlitTwice(old(buffer[..]), at, Flat(pbufs[..i]), pbufs[i]);
        Memcpy(buffer, to, pbufs[i]);
        to := to + |pbufs[i]|;
      }
      assert pbufs[..|pbufs|] == pbufs;
    }

    /** The hardware sends the frame of its current descriptor, if it owns it. */
    method HardwareSends() returns (f: Option<Frame>)
      requires Valid()
      modifies this`hwCur, this`sent, ring
      ensures Valid()
      ensures View() == AfterTake(old(View()))
      ensures f.Some? <==> old(|sent|) < |sending|
      ensures f.Some? ==> f.value == sending[old(|sent|)]
    {
      ghost var was, view := ring[..], View();
      TakeKeeps(view);
      assert view.slots[At(hwCur, 0, ring.Length)] ==
             if |sent| < |sending| then Some(sending[|sent|]) else None;
      var d := ring[hwCur];
      if !d.own {
        return None;
      }
      f := Some(buffer[d.buffer..d.buffer + d.len]);
      HandBack(was, buffer[..], true, hwCur);
      ring[hwCur] := d.(own := false);
      assert ring[..] == was[hwCur := d.(own := false)];
      hwCur, sent := d.next, sent + [f.value];
      assert View() == AfterTake(view);
    }
  }

  lemma {:induction false} FlatBounds(pbufs: seq<seq<Byte>>)
    ensures forall i :: 0 <= i <= |pbufs| ==> |Flat(pbufs[..i])| <= |Flat(pbufs)|
  {
    if pbufs == [] {
      assert pbufs[..0] == pbufs;
    } else {
      var n := |pbufs| - 1;
      FlatBounds(pbufs[..n]);
      forall i | 0 <= i <= |pbufs|
        ensures |Flat(pbufs[..i])| <= |Flat(pbufs)|
      {
        if i <= n {
          assert pbufs[..n][..i] == pbufs[..i];
        } else {
          assert pbufs[..i] == pbufs;
        }
      }
    }
  }

  /** The receive ring: a descriptor with own set is the hardware's, to fill. */
  class Receiver {
    const ring: array<Desc>
    const buffer: array<Byte>
    var cur: nat
    var hwCur: nat
    ghost var arrived: seq<Frame>
    ghost var delivered: seq<Frame>

    ghost function View(): Ring
      reads this, ring, buffer
    {
      Ring(Slots(ring[..], buffer[..], false), hwCur, cur, arrived, delivered)
    }

    ghost predicate Valid()
      reads this, ring, buffer
    {
      && Laid(ring[..], buffer[..], false) && Inv(View())
      && forall i {:trigger ring[i]} :: 0 <= i < ring.Length ==> ring[i].buffer == 2048 * i
    }

    /** rx_desc_init */
    constructor (n: nat)
      requires n > 0
      ensures Valid() && fresh(ring) && fresh(buffer) && View() == Empty(n)
    {
      ring := new Desc[n](i requires 0 <= i => Desc(true, 0, 2048 * i, Next(i, n)));
      buffer := new Byte[2048 * n](_ => 0);
      cur, hwCur, arrived, delivered := 0, 0, [], [];
      new;
      assert Slots(ring[..], buffer[..], false) == Empty(n).slots;
    }

    /** A frame arrives that fits a descriptor's 2000 bytes. */
    method HardwareReceives(f: Frame)
      requires Valid() && |f| <= 2000
      modifies this`hwCur, this`arrived, ring, buffer
      ensures Valid()
      ensures View() == AfterPut(old(View()), f)
    {
      ghost var was, bytes, view := ring[..], buffer[..], View();
      PutKeeps(view, f);
      var d := ring[hwCur];
      if !d.own {
        return;
      }
      Memcpy(buffer, d.buffer, f);
      ring[hwCur] := d.(own := false, len := |f|);
      HandOver(was, bytes, false, hwCur, f, ring[hwCur]);
      assert ring[..] == was[hwCur := ring[hwCur]] && f[..|f|] == f;
      hwCur, arrived := d.next, arrived + [f];
      assert View() == AfterPut(view, f);
    }

    /** rt_fh81_gmac_rx */
    method Receive() returns (f: Option<Frame>)
      requires Valid()
      modifies this`cur, this`delivered, ring
      ensures Valid()
      ensures View() == AfterTake(old(View()))
      ensures f.Some? <==> old(|delivered|) < |arrived|
      ensures f.Some? ==> f.value == arrived[old(|delivered|)]
      ensures forall i :: 0 <= i < ring.Length && old(ring[i].own) ==> ring[i] == old(ring[i])
    {
      ghost var was, view := ring[..], View();
      TakeKeeps(view);
      assert view.slots[At(cur, 0, ring.Length)] ==
             if |delivered| < |arrived| then Some(arrived[|delivered|]) else None;
      var at := cur;
      var d := ring[at];
      if d.own {
        return None;
      }
      SoftwareNext(at, ring.Length);
      cur := (cur + 1) % ring.Length;
      f := Some(buffer[d.buffer..d.buffer + d.len]);
      HandBack(was, buffer[..], false, at);
      ring[at] := d.(own := true);
      assert ring[..] == was[at := d.(own := true)];
      delivered := delivered + [f.value];
      assert View() == AfterTake(view);
    }
  }
}
