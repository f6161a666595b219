/** Transfers of drivers/ssi.c: the interrupt-driven pump, the DMA loop, and the
    fall-through from one to the other. The bus exchanges a byte for a byte. */
module Spi {
  import opened Common
  import opened Bytes

  /** One message and the controller's FIFO depths. */
  datatype Config = Config(length: nat, send: Option<seq<Byte>>, recv: bool, txDepth: nat, rxDepth: nat)
  {
    /** fh_spi_check_txfifo_depth never reports less than 3. */
    predicate Valid() {
      txDepth >= 2 && (send.Some? ==> |send.value| == length)
    }

    /** The bytes the message puts on the wire. */
    function Out(): (r: seq<Byte>)
      requires Valid()
      ensures |r| == length
    {
      if send.Some? then send.value else seq(length, _ => 0xff)
    }
  }

  /** `recvBuf` is the whole receive buffer; `sendPos` and `recvPos` are where the
      message's advancing pointers stand. `wire` and `replies` are what went over
      the bus since the start of this phase. */
  datatype State = State(
    transfered: nat, received: nat, sendPos: nat, recvPos: nat, recvBuf: seq<Byte>,
    tx: seq<Byte>, rx: seq<Byte>, finished: bool, wire: seq<Byte>, replies: seq<Byte>)

  datatype Event = Shift(reply: Byte) | Isr

  /** The bus moves one byte out and one in. */
  function AfterShift(s: State, reply: Byte): State {
    if s.tx == [] then s
    else s.(tx := s.tx[1..], rx := s.rx + [reply], wire := s.wire + [s.tx[0]], replies := s.replies + [reply])
  }

  function TxRoom(c: Config, s: State): int {
    Min((c.txDepth - |s.tx|) / 2, c.length - s.transfered)
  }

  /** Receiving part of fh_spi_interrupt */
  function AfterDrain(c: Config, s: State): State
    requires c.recv ==> s.recvPos + |s.rx| <= |s.recvBuf|
  {
    var n := |s.rx|;
    s.(received := s.received + n, rx := [],
       recvBuf := if c.recv then Blit(s.recvBuf, s.recvPos, s.rx) else s.recvBuf,
       recvPos := if c.recv then s.recvPos + n else s.recvPos)
  }

  /** Transmitting part of fh_spi_interrupt */
  function AfterFill(c: Config, s: State, n: nat): State
    requires c.send.Some? ==> s.sendPos + n <= |c.send.value|
  {
    var data := if c.send.Some? then c.send.value[s.sendPos..s.sendPos + n] else seq(n, _ => 0xff);
    s.(transfered := s.transfered + n, tx := s.tx + data,
       sendPos := if c.send.Some? then s.sendPos + n else s.sendPos)
  }

  /** The pointers are where the counters say, so that no buffer is overrun. */
  predicate InBounds(c: Config, s: State) {
    && c.Valid()
    && |s.tx| <= c.txDepth && s.transfered <= c.length
    && s.received + |s.rx| <= s.transfered
    && (c.send.Some? ==> s.sendPos == s.transfered)
    && (c.recv ==> s.recvPos == s.received && |s.recvBuf| == c.length)
  }

  /** fh_spi_interrupt, without a FIFO error pending */
  function AfterIsr(c: Config, s: State): State
    requires InBounds(c, s)
  {
    var n := TxRoom(c, s);
    var drained := AfterDrain(c, s);
    if drained.received == c.length then drained.(finished := true)
    else AfterFill(c, drained, n)
  }

  function Step(c: Config, s: State, e: Event): State {
    if s.finished || !InBounds(c, s) then s
    else
      match e
      case Shift(reply) => AfterShift(s, reply)
      case Isr => AfterIsr(c, s)
  }

  function Run(c: Config, s: State, events: seq<Event>): State {
    if events == [] then s
    else Step(c, Run(c, s, events[..|events| - 1]), events[|events| - 1])
  }

  /** The pump's start at byte `o`: both counters and cursors there, FIFOs empty. */
  predicate StartsAt(c: Config, s: State, o: nat) {
    && c.Valid() && o <= c.length
    && s.transfered == s.received == o
    && (c.send.Some? ==> s.sendPos == o)
    && (c.recv ==> s.recvPos == o && |s.recvBuf| == c.length)
    && s.tx == s.rx == s.wire == s.replies == [] && !s.finished
  }

  ghost predicate Inv(c: Config, s: State, o: nat, buf0: seq<Byte>) {
    && InBounds(c, s) && o <= s.received
    && s.transfered - s.received == |s.tx| + |s.rx| < c.txDepth
    && |s.wire| == |s.replies|
    && s.wire + s.tx == c.Out()[o..s.transfered]
    && s.received - o + |s.rx| == |s.replies|
    && s.rx == s.replies[s.received - o..]
    && (c.recv ==> |buf0| == c.length
                   && s.recvBuf == buf0[..o] + s.replies[..s.received - o] + buf0[s.received..])
    && (s.finished ==> s.received == c.length)
  }

  lemma ShiftKeeps(c: Config, s: State, o: nat, buf0: seq<Byte>, reply: Byte)
    requires Inv(c, s, o, buf0) && !s.finished
    ensures Inv(c, AfterShift(s, reply), o, buf0)
  {
    if s.tx != [] {
      var u := AfterShift(s, reply);
      assert u.wire + u.tx == s.wire + s.tx;
      assert u.replies[..u.received - o] == s.replies[..s.received - o];
    }
  }

  lemma DrainKeeps(c: Config, s: State, o: nat, buf0: seq<Byte>)
    requires Inv(c, s, o, buf0) && !s.finished
    ensures Inv(c, AfterDrain(c, s), o, buf0)
  {
    var u := AfterDrain(c, s);
    assert u.replies[u.received - o..] == [];
    if c.recv {
      assert u.recvBuf == buf0[..o] + s.replies[..u.received - o] + buf0[u.received..];
    }
  }

  lemma FillKeeps(c: Config, s: State, o: nat, buf0: seq<Byte>, n: nat)
    requires Inv(c, s, o, buf0) && !s.finished && s.transfered + n <= c.length
    requires |s.tx| + |s.rx| + n < c.txDepth
    ensures Inv(c, AfterFill(c, s, n), o, buf0)
  {
    var u := AfterFill(c, s, n);
    assert u.wire + u.tx == c.Out()[o..s.transfered] + c.Out()[s.transfered..u.transfered] by {
      assert u.wire + u.tx == (s.wire + s.tx) + c.Out()[s.transfered..u.transfered];
    }
    assert c.Out()[o..s.transfered] + c.Out()[s.transfered..u.transfered] == c.Out()[o..u.transfered];
  }

  lemma StepKeeps(c: Config, s: State, o: nat, buf0: seq<Byte>, e: Event)
    requires Inv(c, s, o, buf0)
    ensures Inv(c, Step(c, s, e), o, buf0)
  {
    if !s.finished {
      match e
      case Shift(reply) =>
        ShiftKeeps(c, s, o, buf0, reply);
      case Isr =>
        var drained := AfterDrain(c, s);
        DrainKeeps(c, s, o, buf0);
        if drained.received != c.length {
          FillKeeps(c, drained, o, buf0, TxRoom(c, s));
        }
    }
  }

  lemma {:induction false} RunKeeps(c: Config, s: State, o: nat, events: seq<Event>)
    requires StartsAt(c, s, o)
    ensures Inv(c, Run(c, s, events), o, s.recvBuf)
  {
    if events == [] {
      assert c.Out()[o..o] == [];
    } else {
      RunKeeps(c, s, o, events[..|events| - 1]);
      StepKeeps(c, Run(c, s, events[..|events| - 1]), o, s.recvBuf, events[|events| - 1]);
    }
  }

  /** The most bytes that can ever be underway: halving the room never fills the
      last place of the TX FIFO. */
  function Reach(c: Config, o: nat): int {
    Min(c.txDepth - 1, c.length - o)
  }

  /** For every interleaving of interrupts and byte shifts: the counters bound
      each other, their difference is what the FIFOs hold, neither FIFO ever holds
      more than `Reach`; a finished pump has sent exactly the message and stored
      exactly the replies. */
  lemma PumpIsUncut(c: Config, s: State, o: nat, events: seq<Event>)
    requires StartsAt(c, s, o)
    ensures var u := Run(c, s, events);
            && o <= u.received <= u.transfered <= c.length
            && u.transfered - u.received == |u.tx| + |u.rx|
            && |u.tx| < c.txDepth
            && |u.rx| <= Reach(c, o)
            && u.wire <= c.Out()[o..]
            && (u.finished ==>
                  && u.wire == c.Out()[o..] && |u.replies| == c.length - o
                  && (c.recv ==> u.recvBuf == s.recvBuf[..o] + u.replies))
            && (!c.recv ==> u.recvBuf == s.recvBuf)
  {
    RunKeeps(c, s, o, events);
    if !c.recv {
      NoReceive(c, s, events);
    }
    var u := Run(c, s, events);
    assert u.wire == (u.wire + u.tx)[..|u.wire|];
    assert c.Out()[o..][..|u.wire|] == c.Out()[o..u.transfered][..|u.wire|];
    if u.finished {
      assert c.Out()[o..c.length] == c.Out()[o..];
      assert u.replies[..u.received - o] == u.replies;
    }
  }

  lemma {:induction false} NoReceive(c: Config, s: State, events: seq<Event>)
    requires !c.recv
    ensures Run(c, s, events).recvBuf == s.recvBuf
  {
    if events != [] {
      NoReceive(c, s, events[..|events| - 1]);
    }
  }

  // ----- the RX FIFO

  /** xfer_data_isr sets the TX threshold to half the FIFO: every interrupt of the
      run finds at most that many bytes in it. */
  predicate Raised(c: Config, s: State, events: seq<Event>) {
    events != [] ==>
      var before := events[..|events| - 1];
      && Raised(c, s, before)
      && (events[|events| - 1].Isr? ==> |Run(c, s, before).tx| <= c.txDepth / 2)
  }

  /** The most bytes that can be underway then. */
  function Peak(c: Config, o: nat): int {
    Min(3 * c.txDepth / 4, c.length - o)
  }

  lemma {:induction false} PeakBounds(c: Config, s: State, o: nat, events: seq<Event>)
    requires StartsAt(c, s, o) && Raised(c, s, events)
    ensures var u := Run(c, s, events); |u.tx| + |u.rx| <= Peak(c, o)
  {
    RunKeeps(c, s, o, events);
    if events != [] {
      var before := events[..|events| - 1];
      RunKeeps(c, s, o, before);
      PeakBounds(c, s, o, before);
    }
  }

  lemma OneIsr(c: Config, s: State, o: nat)
    requires StartsAt(c, s, o) && o < c.length
    ensures Raised(c, s, [Isr]) && Run(c, s, [Isr]) == AfterIsr(c, s)
    ensures var u := AfterIsr(c, s);
            && InBounds(c, u) && !u.finished && u.rx == [] && u.received == o
            && u.transfered == o + |u.tx| && |u.tx| == Min(c.txDepth / 2, c.length - o)
  {
    assert [Isr][..0] == [];
    IdleIsr(c, s, o);
  }

  /** The pump fills half the TX FIFO, is called again at once and fills half of the rest. */
  lemma TwoIsrsPeak(c: Config, s: State, o: nat)
    requires StartsAt(c, s, o) && o < c.length
    ensures Raised(c, s, [Isr, Isr])
    ensures var u := Run(c, s, [Isr, Isr]);
            InBounds(c, u) && !u.finished && u.rx == [] && |u.tx| == Peak(c, o)
  {
    OneIsr(c, s, o);
    assert [Isr, Isr][..1] == [Isr];
    var a := AfterIsr(c, s);
    IdleIsr(c, a, o);
    assert Run(c, s, [Isr, Isr]) == Step(c, a, Isr) == AfterIsr(c, a);
    PeakInTwo(c.txDepth, c.length - o, |a.tx|);
  }

  lemma PeakInTwo(depth: int, left: int, half: int)
    requires half == Min(depth / 2, left) && depth >= 0 && left > 0
    ensures half + Min((depth - half) / 2, left - half) == Min(3 * depth / 4, left)
  {
  }

  /** An interrupt with no reply waiting. */
  lemma IdleIsr(c: Config, u: State, o: nat)
    requires InBounds(c, u) && !u.finished && u.rx == [] && u.received == o < c.length
    requires u.transfered == o + |u.tx|
    ensures var v := AfterIsr(c, u);
            && InBounds(c, v) && !v.finished && v.rx == [] && v.received == o
            && v.transfered == o + |v.tx| && |v.tx| == |u.tx| + TxRoom(c, u)
  {
    if c.recv {
      assert Blit(u.recvBuf, u.recvPos, []) == u.recvBuf;
    }
  }

  lemma {:induction false} ShiftsMove(c: Config, s: State, o: nat, j: nat)
    requires StartsAt(c, s, o) && o < c.length && j <= Peak(c, o)
    ensures var events := [Isr, Isr] + seq(j, _ => Shift(0));
            && Raised(c, s, events)
            && var u := Run(c, s, events);
               InBounds(c, u) && !u.finished && |u.rx| == j && |u.tx| + j == Peak(c, o)
  {
    var events := [Isr, Isr] + seq(j, _ => Shift(0));
    RunKeeps(c, s, o, events);
    if j == 0 {
      TwoIsrsPeak(c, s, o);
      assert events == [Isr, Isr];
    } else {
      ShiftsMove(c, s, o, j - 1);
      assert events[..|events| - 1] == [Isr, Isr] + seq(j - 1, _ => Shift(0));
      assert events[|events| - 1] == Shift(0);
    }
  }

  /** The RX FIFO never holds more than it can, in any run with the interrupts that
      the threshold allows, exactly when it is at least three quarters as deep as
      the TX FIFO or fits the message. */
  lemma RxFifoExact(c: Config, s: State, o: nat)
    requires StartsAt(c, s, o)
    ensures (forall events :: Raised(c, s, events) ==> |Run(c, s, events).rx| <= c.rxDepth)
            <==> 3 * c.txDepth / 4 <= c.rxDepth || c.length - o <= c.rxDepth
  {
    var m := Peak(c, o);
    if m <= c.rxDepth {
      forall events | Raised(c, s, events)
        ensures |Run(c, s, events).rx| <= c.rxDepth
      {
        PeakBounds(c, s, o, events);
      }
    } else {
      ShiftsMove(c, s, o, m);
      assert |Run(c, s, [Isr, Isr] + seq(m, _ => Shift(0))).rx| > c.rxDepth;
    }
  }

  // ----- progress

  /** Work left: queueing a byte, moving it over the bus and draining its reply. */
  function Work(c: Config, s: State): int {
    3 * (c.length - s.transfered) + 2 * |s.tx| + |s.rx| + (if s.finished then 0 else 1)
  }

  /** No step adds work, a byte shift always does some, and with the TX FIFO empty
      the interrupt does too: the pump cannot get stuck. */
  lemma StepWorks(c: Config, s: State, o: nat, buf0: seq<Byte>, e: Event)
    requires Inv(c, s, o, buf0)
    ensures 0 <= Work(c, Step(c, s, e)) <= Work(c, s)
    ensures !s.finished && (if s.tx != [] then e.Shift? else e.Isr?) ==> Work(c, Step(c, s, e)) < Work(c, s)
  {
    StepKeeps(c, s, o, buf0, e);
  }

  /** Every step of the run does work. */
  predicate Working(c: Config, s: State, events: seq<Event>) {
    events != [] ==>
      var before := events[..|events| - 1];
      var u := Run(c, s, before);
      && Working(c, s, before) && !u.finished
      && (if u.tx != [] then events[|events| - 1].Shift? else events[|events| - 1].Isr?)
  }

  /** A run in which every step works is at most 3 * (length - o) + 1 steps long. */
  lemma {:induction false} WorkingRunsEnd(c: Config, s: State, o: nat, events: seq<Event>)
    requires StartsAt(c, s, o) && Working(c, s, events)
    ensures |events| + Work(c, Run(c, s, events)) <= 3 * (c.length - o) + 1
    ensures |events| <= 3 * (c.length - o) + 1
  {
    RunKeeps(c, s, o, events);
    if events != [] {
      var before := events[..|events| - 1];
      WorkingRunsEnd(c, s, o, before);
      RunKeeps(c, s, o, before);
      StepWorks(c, Run(c, s, before), o, s.recvBuf, events[|events| - 1]);
    }
  }

  // ----- the DMA loop and the fall-through to the pump

  /** A message that DMA carried up to byte `o` and the pump finished from there is
      one whole transfer: the wire saw the message and the buffer has the replies. */
  lemma FallThroughIsUncut(c: Config, s: State, o: nat, dmaWire: seq<Byte>, dmaReplies: seq<Byte>, events: seq<Event>)
    requires StartsAt(c, s, o) && Run(c, s, events).finished
    requires dmaWire == c.Out()[..o]
    requires c.recv ==> |dmaReplies| == o && s.recvBuf[..o] == dmaReplies
    ensures var u := Run(c, s, events);
            && dmaWire + u.wire == c.Out()
            && (c.recv ==> u.recvBuf == dmaReplies + u.replies)
            && u.received == u.transfered == c.length
  {
    PumpIsUncut(c, s, o, events);
    RunKeeps(c, s, o, events);
    assert c.Out()[..o] + c.Out()[o..] == c.Out();
  }

  /** The receive buffer once the first `n` answers are in it. */
  function Landed(c: Config, before: seq<Byte>, answers: seq<Byte>, n: nat): seq<Byte>
    requires n <= |answers| && (c.recv ==> |answers| <= |before|)
  {
    if c.recv then Blit(before, 0, answers[..n]) else before
  }

  lemma ChunkLands(c: Config, before: seq<Byte>, answers: seq<Byte>, i: nat, j: nat)
    requires c.Valid() && i <= j <= |answers| == c.length && (c.recv ==> |before| == c.length)
    ensures c.Out()[..i] + c.Out()[i..j] == c.Out()[..j]
    ensures c.recv ==>
              Blit(Landed(c, before, answers, i), i, answers[i..j]) == Landed(c, before, answers, j)
  {
    if c.recv {
      assert answers[..i] + answers[i..j] == answers[..j];
      BlitTwice(before, 0, answers[..i], answers[i..j]);
    }
  }

  class Controller {
    const cfg: Config
    const recvBuf: array<Byte>
    var transfered: nat
    var received: nat
    var sendPos: nat
    var recvPos: nat
    var tx: seq<Byte>
    var rx: seq<Byte>
    var finished: bool
    var wire: seq<Byte>
    var replies: seq<Byte>

    ghost function View(): State
      reads this, recvBuf
    {
      State(transfered, received, sendPos, recvPos, recvBuf[..], tx, rx, finished, wire, replies)
    }

    /** fh_spi_xfer takes a message on an idle bus. */
    constructor (cfg: Config, recvBuf: array<Byte>)
      requires cfg.Valid() && (cfg.recv ==> recvBuf.Length == cfg.length)
      ensures this.cfg == cfg && this.recvBuf == recvBuf && StartsAt(cfg, View(), 0)
      ensures recvBuf[..] == old(recvBuf[..])
    {
      this.cfg, this.recvBuf := cfg, recvBuf;
      transfered, received, sendPos, recvPos := 0, 0, 0, 0;
      tx, rx, wire, replies, finished := [], [], [], [], false;
    }

    method Interrupt()
      requires InBounds(cfg, View()) && !finished
      modifies this, recvBuf
      ensures View() == AfterIsr(cfg, old(View()))
    {
      ghost var s := View();
      var room := Min((cfg.txDepth - |tx|) / 2, cfg.length - transfered);
      Drain();
      if received == cfg.length {
        finished := true;
        return;
      }
      Fill(room);
    }

    method Drain()
      requires InBounds(cfg, View())
      modifies this`received, this`recvPos, this`rx, recvBuf
      ensures View() == AfterDrain(cfg, old(View()))
    {
      ghost var s := View();
      var n := |rx|;
      received := received + n;
      var k := 0;
      while k < n
        invariant 0 <= k <= n && rx == s.rx[k..] && received == s.received + n
        invariant cfg.recv ==> recvPos == s.recvPos + k && recvBuf[..] == Blit(s.recvBuf, s.recvPos, s.rx[..k])
        invariant !cfg.recv ==> recvPos == s.recvPos && recvBuf[..] == s.recvBuf
      {
        var data := rx[0];
        rx := rx[1..];
        if cfg.recv {
          Store(s.recvBuf, s.recvPos, s.rx, k, data);
        }
        k := k + 1;
      }
      assert s.rx[..n] == s.rx;
      assert View() == AfterDrain(cfg, s);
    }

    /** The next byte at the moving receive pointer. */
    method Store(ghost buf: seq<Byte>, ghost at: nat, ghost src: seq<Byte>, ghost k: nat, data: Byte)
      requires k < |src| && at + |src| <= |buf| && data == src[k]
      requires recvPos == at + k && recvBuf[..] == Blit(buf, at, src[..k])
      modifies this`recvPos, recvBuf
      ensures recvPos == at + k + 1 && recvBuf[..] == Blit(buf, at, src[..k + 1])
    {
      recvBuf[recvPos] := data;
      recvPos := recvPos + 1;
    }

    method Fill(n: nat)
      requires cfg.send.Some? ==> sendPos + n <= |cfg.send.value|
      modifies this`transfered, this`sendPos, this`tx
      ensures View() == AfterFill(cfg, old(View()), n)
    {
      ghost var s := View();
      transfered := transfered + n;
      var k := 0;
      if cfg.send.Some? {
        while k < n
          invariant 0 <= k <= n && transfered == s.transfered + n && sendPos == s.sendPos + k
          invariant tx == s.tx + cfg.send.value[s.sendPos..s.sendPos + k]
        {
          tx := tx + [cfg.send.value[sendPos]];
          sendPos := sendPos + 1;
          k := k + 1;
        }
      } else {
        while k < n
          invariant 0 <= k <= n && transfered == s.transfered + n && sendPos == s.sendPos
          invariant tx == s.tx + seq(k, _ => 0xff)
        {
          tx := tx + [0xff];
          k := k + 1;
        }
      }
      assert View() == AfterFill(cfg, s, n);
    }

    /** One round of the loop of xfer_data_dma: `replies` arrived through the
        bounce buffer while the returned bytes went out. */
    method Chunk(chunk: seq<Byte>) returns (sent: seq<Byte>)
      requires StartsAt(cfg, View(), received) && received + |chunk| <= cfg.length
      modifies this`transfered, this`received, this`sendPos, this`recvPos, recvBuf
      ensures received == old(received) + |chunk| && StartsAt(cfg, View(), received)
      ensures sent == cfg.Out()[old(received)..received]
      ensures recvBuf[..] == if cfg.recv then Blit(old(recvBuf[..]), old(received), chunk) else old(recvBuf[..])
    {
      var size := |chunk|;
      sent := seq(size, _ => 0xff);
      if cfg.send.Some? {
        sent := cfg.send.value[sendPos..sendPos + size];
        sendPos := sendPos + size;
      }
      if cfg.recv {
        Memcpy(recvBuf, recvPos, chunk);
        recvPos := recvPos + size;
      }
      received := received + size;
      transfered := transfered + size;
    }

    /** xfer_data_dma. Byte i of the message is answered by `answers[i]`; chunk
        number `failing` times out before anything of it counts. On a timeout the
        pump can start where the counters stand. */
    method XferDataDma(answers: seq<Byte>, failing: Option<nat>)
      returns (ok: bool, dmaWire: seq<Byte>)
      requires StartsAt(cfg, View(), 0) && |answers| == cfg.length
      modifies this`transfered, this`received, this`sendPos, this`recvPos, recvBuf
      ensures StartsAt(cfg, View(), received)
      ensures ok <==> failing.None? || cfg.length <= 0x1000 * failing.value
      ensures ok ==> received == cfg.length
      ensures !ok ==> failing.Some? && received == 0x1000 * failing.value < cfg.length
      ensures dmaWire == cfg.Out()[..received]
      ensures recvBuf[..] == Landed(cfg, old(recvBuf[..]), answers, received)
    {
      var chunk := 0;
      dmaWire := [];
      ghost var before := recvBuf[..];
      while received != cfg.length
        invariant StartsAt(cfg, View(), received)
        invariant received == Min(0x1000 * chunk, cfg.length) && (failing.Some? ==> chunk <= failing.value)
        invariant dmaWire == cfg.Out()[..received]
        invariant recvBuf[..] == Landed(cfg, before, answers, received)
        decreases cfg.length - received
      {
        if failing == Some(chunk) {
          return false, dmaWire;
        }
        var next := received + Min(0x1000, cfg.length - received);
        ChunkLands(cfg, before, answers, received, next);
        var sent := Chunk(answers[received..next]);
        dmaWire := dmaWire + sent;
        chunk := chunk + 1;
      }
      ok := true;
    }
  }
}
