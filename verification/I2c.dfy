/** Transfers of drivers/i2c.c: the command pump, the receive side and the
    interrupt that runs both, against a bus that may move at any moment. */
module I2c {
  import opened Common
  import opened Bytes

  /** One bus message. A read message's `data` is what its buffer holds before
      the transfer. */
  datatype Msg = Msg(addr: nat, read: bool, data: seq<Byte>)

  /** Words of the data/command register: bit 8 asks for a byte, bit 9 ends a message. */
  type Cmd = c: int | 0 <= c < 0x400

  function Command(m: Msg, i: nat): Cmd
    requires i < |m.data|
  {
    var low: int := if m.read then 0x100 else m.data[i];
    if i == |m.data| - 1 then low + 0x200 else low
  }

  function Commands(m: Msg): (r: seq<Cmd>)
    ensures |r| == |m.data|
  {
    seq(|m.data|, i requires 0 <= i < |m.data| => Command(m, i))
  }

  /** The uncut transfer: all commands of all messages. */
  function Program(msgs: seq<Msg>): seq<Cmd> {
    if msgs == [] then [] else Program(msgs[..|msgs| - 1]) + Commands(msgs[|msgs| - 1])
  }

  /** Message `i` passes the pump's two checks. */
  predicate Fits(msgs: seq<Msg>, i: nat) {
    i < |msgs| && msgs[i].addr == msgs[0].addr && msgs[i].data != []
  }

  /** The first message from `from` on that does not fit, or the end. */
  function Good(msgs: seq<Msg>, from: nat): (g: nat)
    requires from <= |msgs|
    ensures from <= g <= |msgs|
    decreases |msgs| - from
  {
    if Fits(msgs, from) then Good(msgs, from + 1) else from
  }

  lemma {:induction false} GoodIs(msgs: seq<Msg>, from: nat, w: nat)
    requires from <= w <= |msgs| && w <= Good(msgs, from)
    ensures w < Good(msgs, from) <==> Fits(msgs, w)
    decreases w - from
  {
    if from < w {
      GoodIs(msgs, from + 1, w);
    }
  }

  // ----- reading the messages back off the bus

  predicate IsLast(c: Cmd) {
    c >= 0x200
  }

  predicate IsRead(c: Cmd) {
    (if IsLast(c) then c - 0x200 else c) >= 0x100
  }

  /** What a message amounts to on the bus. */
  datatype Transfer = Receive(len: nat) | Send(data: seq<Cmd>)

  function Amounts(m: Msg): Transfer {
    if m.read then Receive(|m.data|) else Send(m.data)
  }

  function AllAmount(msgs: seq<Msg>): (r: seq<Transfer>)
    ensures |r| == |msgs| && forall i :: 0 <= i < |r| ==> r[i] == Amounts(msgs[i])
  {
    seq(|msgs|, i requires 0 <= i < |msgs| => Amounts(msgs[i]))
  }

  /** The commands up to the last STOP as transfers, and the commands after it. */
  function Parse(cmds: seq<Cmd>): (seq<Transfer>, seq<Cmd>) {
    if cmds == [] then ([], [])
    else
      var (done, open) := Parse(cmds[..|cmds| - 1]);
      var c := cmds[|cmds| - 1];
      if !IsLast(c) then (done, open + [c])
      else if IsRead(c) then (done + [Receive(|open| + 1)], [])
      else (done + [Send(open + [c - 0x200])], [])
  }

  /** One more command: it closes a message, or adds to the open one. */
  lemma ParseNext(cmds: seq<Cmd>, c: Cmd)
    ensures var (done, open) := Parse(cmds);
            Parse(cmds + [c]) ==
            if !IsLast(c) then (done, open + [c])
            else if IsRead(c) then (done + [Receive(|open| + 1)], [])
            else (done + [Send(open + [c - 0x200])], [])
  {
    assert (cmds + [c])[..|cmds|] == cmds;
  }

  /** Commands without STOP all stay open. */
  lemma {:induction false} ParseOpen(before: seq<Cmd>, cmds: seq<Cmd>)
    requires Parse(before).1 == [] && forall i :: 0 <= i < |cmds| ==> !IsLast(cmds[i])
    ensures Parse(before + cmds) == (Parse(before).0, cmds)
  {
    if cmds == [] {
      assert before + cmds == before;
    } else {
      var n := |cmds| - 1;
      ParseOpen(before, cmds[..n]);
      ParseNext(before + cmds[..n], cmds[n]);
      assert cmds == cmds[..n] + [cmds[n]];
      assert before + cmds == before + cmds[..n] + [cmds[n]];
    }
  }

  /** All commands but the last are without STOP, and the message can be read off them. */
  lemma CommandsMean(m: Msg, open: seq<Cmd>, c: Cmd)
    requires m.data != [] && Commands(m) == open + [c]
    ensures IsLast(c) && forall i :: 0 <= i < |open| ==> !IsLast(open[i])
    ensures Amounts(m) == if IsRead(c) then Receive(|open| + 1) else Send(open + [c - 0x200])
  {
    forall i | 0 <= i < |open|
      ensures open[i] == Command(m, i)
    {
      assert (open + [c])[i] == open[i];
    }
    assert (open + [c])[|open|] == c && |open| == |m.data| - 1;
    if !m.read {
      assert m.data == open + [c - 0x200];
    }
  }

  /** The commands of a message parse to what it amounts to. */
  lemma ParseMessage(before: seq<Cmd>, m: Msg)
    requires Parse(before).1 == [] && m.data != []
    ensures Parse(before + Commands(m)) == (Parse(before).0 + [Amounts(m)], [])
  {
    var n := |m.data| - 1;
    var open, c := Commands(m)[..n], Commands(m)[n];
    CommandsMean(m, open, c);
    ParseOpen(before, open);
    ParseNext(before + open, c);
    assert before + Commands(m) == before + open + [c];
  }

  /** The program determines its messages: STOP is on the last command of each
      and on no other. */
  lemma {:induction false} ParseProgram(msgs: seq<Msg>)
    requires forall m :: m in msgs ==> m.data != []
    ensures Parse(Program(msgs)) == (AllAmount(msgs), [])
  {
    if msgs != [] {
      var n := |msgs| - 1;
      ParseProgram(msgs[..n]);
      assert msgs[n] in msgs;
      ParseMessage(Program(msgs[..n]), msgs[n]);
      assert AllAmount(msgs) == AllAmount(msgs[..n]) + [Amounts(msgs[n])];
    }
  }

  // ----- where the pump stands

  /** msg_write_idx, tx_buf as an index, tx_buf_len, STATUS_WRITE_IN_PROGRESS, msg_err */
  datatype Place = Place(w: nat, pos: nat, left: nat, writing: bool, err: bool)

  /** A place between two messages, or inside one of them, once `cmds` are out. */
  predicate Stands(msgs: seq<Msg>, p: Place, cmds: seq<Cmd>) {
    var g := Good(msgs, 0);
    && p.w <= g && cmds <= Program(msgs[..g])
    && (if p.writing then
          && p.w < g && !p.err && p.left > 0 && p.pos + p.left == |msgs[p.w].data|
          && |cmds| == Start(msgs, p.w) + p.pos
        else (p.err ==> p.w == g < |msgs|) && |cmds| == Start(msgs, p.w))
  }

  /** The pump returns only at such a place. */
  predicate Settled(msgs: seq<Msg>, p: Place, cmds: seq<Cmd>) {
    Stands(msgs, p, cmds) && (p.writing || p.err || p.w == |msgs|)
  }

  /** Between two interrupts: settled, or not yet begun. */
  predicate Rests(msgs: seq<Msg>, p: Place, cmds: seq<Cmd>) {
    Stands(msgs, p, cmds) && (p.writing || p.err || p.w == |msgs| || p.w == 0)
  }

  /** How many commands the messages before message `w` take. */
  function Start(msgs: seq<Msg>, w: nat): nat
    requires w <= |msgs|
  {
    if w == 0 then 0 else Start(msgs, w - 1) + |msgs[w - 1].data|
  }

  lemma {:induction false} StartIs(msgs: seq<Msg>, w: nat)
    requires w <= |msgs|
    ensures |Program(msgs[..w])| == Start(msgs, w)
  {
    if w > 0 {
      StartIs(msgs, w - 1);
      assert msgs[..w][..w - 1] == msgs[..w - 1];
    }
  }

  lemma {:induction false} StartGrows(msgs: seq<Msg>, w: nat, v: nat)
    requires w < v <= |msgs|
    ensures Start(msgs, w) + |msgs[w].data| <= Start(msgs, v)
  {
    if w < v - 1 {
      StartGrows(msgs, w, v - 1);
    }
  }

  lemma {:induction false} ProgramPrefix(msgs: seq<Msg>, g: nat, w: nat, k: nat)
    requires w < g <= |msgs| && k <= |msgs[w].data|
    ensures Program(msgs[..w]) + Commands(msgs[w])[..k] <= Program(msgs[..g])
  {
    assert msgs[..g][..g - 1] == msgs[..g - 1];
    if w < g - 1 {
      ProgramPrefix(msgs, g - 1, w, k);
    }
  }

  lemma SamePlaceOrdered(msgs: seq<Msg>, p: Place, q: Place, a: seq<Cmd>, b: seq<Cmd>)
    requires Settled(msgs, p, a) && Settled(msgs, q, b) && |a| == |b| && p.w <= q.w
    ensures p == q.(pos := p.pos, left := p.left) && (p.writing ==> p == q)
  {
    if p.w < q.w {
      StartGrows(msgs, p.w, q.w);
      assert false;
    }
  }

  /** However the transfer was cut by FIFO levels and interrupts: the number of
      commands emitted alone decides what they were, where the pump stands and
      whether it failed. */
  lemma CutIndependent(msgs: seq<Msg>, p: Place, q: Place, a: seq<Cmd>, b: seq<Cmd>)
    requires Settled(msgs, p, a) && Settled(msgs, q, b) && |a| == |b|
    ensures p == q.(pos := p.pos, left := p.left) && (p.writing ==> p == q)
    ensures a == b
  {
    if p.w <= q.w {
      SamePlaceOrdered(msgs, p, q, a, b);
    } else {
      SamePlaceOrdered(msgs, q, p, b, a);
    }
  }

  /** A pump that has returned has sent the program of all messages before the
      first bad one exactly when it is no longer inside a message; then it reports
      an error exactly if there is a bad one. */
  lemma SettledMeans(msgs: seq<Msg>, p: Place, cmds: seq<Cmd>)
    requires Settled(msgs, p, cmds)
    ensures var g := Good(msgs, 0);
            && (!p.writing <==> cmds == Program(msgs[..g]))
            && (p.err <==> !p.writing && g < |msgs|)
            && (p.w == |msgs| <==> cmds == Program(msgs[..g]) && g == |msgs|)
  {
    var g := Good(msgs, 0);
    StartIs(msgs, g);
    if p.writing {
      StartGrows(msgs, p.w, g);
    }
  }

  lemma StandsAtBad(msgs: seq<Msg>, p: Place, cmds: seq<Cmd>)
    requires Stands(msgs, p, cmds) && !p.writing && p.w < |msgs| && !Fits(msgs, p.w)
    ensures Settled(msgs, p.(err := true), cmds)
  {
    GoodIs(msgs, 0, p.w);
  }

  /** Where the pump stands once it has sent message `p.w` up to byte `next`. */
  function Onward(msgs: seq<Msg>, p: Place, next: nat): Place
    requires p.w < |msgs| && next <= |msgs[p.w].data|
  {
    var left := |msgs[p.w].data| - next;
    if left > 0 then p.(pos := next, left := left, writing := true)
    else p.(pos := next, left := 0, writing := false, w := p.w + 1)
  }

  function From(p: Place): nat {
    if p.writing then p.pos else 0
  }

  lemma Extend<T>(all: seq<T>, done: seq<T>, base: seq<T>, next: seq<T>, i: nat, j: nat)
    requires i <= j <= |next| && base + next[..j] <= all && done <= all && |done| == |base| + i
    ensures done + next[i..j] <= all
  {
    assert done == all[..|base| + i];
    assert next[i..j] == all[|base| + i..|base| + j];
  }

  lemma StandsOn(msgs: seq<Msg>, p: Place, cmds: seq<Cmd>, next: nat)
    requires Stands(msgs, p, cmds) && !p.err && Fits(msgs, p.w)
    requires From(p) <= next <= |msgs[p.w].data|
    ensures Stands(msgs, Onward(msgs, p, next), cmds + Commands(msgs[p.w])[From(p)..next])
  {
    var g, m := Good(msgs, 0), msgs[p.w];
    GoodIs(msgs, 0, p.w);
    StartIs(msgs, p.w);
    ProgramPrefix(msgs, g, p.w, next);
    Extend(Program(msgs[..g]), cmds, Program(msgs[..p.w]), Commands(m), From(p), next);
  }

  lemma AddressHolds(msgs: seq<Msg>, p: Place, cmds: seq<Cmd>)
    requires Rests(msgs, p, cmds) && p.w < |msgs| && !p.err
    ensures msgs[p.w].addr == msgs[0].addr
    ensures p.writing ==> Fits(msgs, p.w)
  {
    GoodIs(msgs, 0, p.w);
  }

  /** What a run of the pump has done by the time it is at rest. */
  lemma PumpOutcome(msgs: seq<Msg>, p: Place, cmds: seq<Cmd>)
    requires Rests(msgs, p, cmds) && msgs != []
    ensures var g := Good(msgs, 0);
            && cmds <= Program(msgs[..g])
            && (p.err ==> cmds == Program(msgs[..g]) && g < |msgs|)
            && (p.w == |msgs| && !p.err <==> cmds == Program(msgs) && g == |msgs|)
  {
    assert msgs[..|msgs|] == msgs;
    if Settled(msgs, p, cmds) {
      SettledMeans(msgs, p, cmds);
    } else {
      StartIs(msgs, |msgs|);
      if Good(msgs, 0) == |msgs| {
        GoodIs(msgs, 0, 0);
        StartGrows(msgs, 0, |msgs|);
      }
    }
  }

  // ----- where the replies go

  /** Replies that the read messages before message `i` take. */
  function ReadStart(msgs: seq<Msg>, i: nat): nat
    requires i <= |msgs|
  {
    if i == 0 then 0
    else ReadStart(msgs, i - 1) + if msgs[i - 1].read then |msgs[i - 1].data| else 0
  }

  /** The buffer of a message whose replies begin at `start`, once `got` is read. */
  function FilledOne(m: Msg, start: nat, got: seq<Byte>): (r: seq<Byte>)
    ensures |r| == |m.data| && (!m.read ==> r == m.data)
  {
    if !m.read || |got| <= start then m.data
    else
      var k := Min(|m.data|, |got| - start);
      got[start..start + k] + m.data[k..]
  }

  function Filled(msgs: seq<Msg>, got: seq<Byte>): (r: seq<seq<Byte>>)
    ensures |r| == |msgs|
  {
    seq(|msgs|, i requires 0 <= i < |msgs| => FilledOne(msgs[i], ReadStart(msgs, i), got))
  }

  lemma {:induction false} ReadStartGrows(msgs: seq<Msg>, i: nat, j: nat)
    requires i < j <= |msgs|
    ensures ReadStart(msgs, i) + (if msgs[i].read then |msgs[i].data| else 0) <= ReadStart(msgs, j)
  {
    if i < j - 1 {
      ReadStartGrows(msgs, i, j - 1);
    }
  }

  function Put(buf: seq<Byte>, pos: nat, x: Byte): (r: seq<Byte>)
    requires pos < |buf|
  {
    buf[..pos] + [x] + buf[pos + 1..]
  }

  lemma FilledHere(m: Msg, start: nat, got: seq<Byte>, pos: nat, x: Byte)
    requires m.read && pos < |m.data| && start + pos == |got|
    ensures FilledOne(m, start, got + [x]) == Put(FilledOne(m, start, got), pos, x)
  {
    var more := got + [x];
    assert more[start..start + pos + 1] == got[start..start + pos] + [x];
    assert FilledOne(m, start, more) == more[start..start + pos + 1] + m.data[pos + 1..];
    assert FilledOne(m, start, got) == got[start..start + pos] + m.data[pos..];
  }

  lemma FilledElsewhere(m: Msg, start: nat, got: seq<Byte>, x: Byte)
    requires m.read ==> start + |m.data| <= |got| || |got| < start
    ensures FilledOne(m, start, got + [x]) == FilledOne(m, start, got)
  {
    if m.read && start + |m.data| <= |got| {
      assert (got + [x])[start..start + |m.data|] == got[start..start + |m.data|];
    }
  }

  /** One more reply lands at the next place of the message being read, and nowhere else. */
  lemma ReplyLands(msgs: seq<Msg>, got: seq<Byte>, r: nat, pos: nat, x: Byte)
    requires r < |msgs| && msgs[r].read && pos < |msgs[r].data|
    requires ReadStart(msgs, r) + pos == |got|
    ensures Filled(msgs, got + [x]) == Filled(msgs, got)[r := Put(Filled(msgs, got)[r], pos, x)]
  {
    var was, now := Filled(msgs, got), Filled(msgs, got + [x]);
    FilledHere(msgs[r], ReadStart(msgs, r), got, pos, x);
    forall i | 0 <= i < |msgs| && i != r
      ensures now[i] == was[i]
    {
      if i < r {
        ReadStartGrows(msgs, i, r);
      } else {
        ReadStartGrows(msgs, r, i);
      }
      FilledElsewhere(msgs[i], ReadStart(msgs, i), got, x);
    }
  }

  /** What has been read so far does not show in the commands still to be sent. */
  lemma UnreadCommands(msgs: seq<Msg>, got: seq<Byte>, w: nat)
    requires w < |msgs|
    ensures Commands(msgs[w].(data := Filled(msgs, got)[w])) == Commands(msgs[w])
  {
  }

  /** All replies in: each read buffer holds its own slice of them. */
  lemma FilledWhole(msgs: seq<Msg>, got: seq<Byte>, i: nat)
    requires i < |msgs| && msgs[i].read && |got| == ReadStart(msgs, |msgs|)
    ensures var s := ReadStart(msgs, i);
            s + |msgs[i].data| <= |got| && Filled(msgs, got)[i] == got[s..s + |msgs[i].data|]
  {
    ReadStartGrows(msgs, i, |msgs|);
  }

  /** msg_read_idx, rx_buf as an index, rx_buf_len, STATUS_READ_IN_PROGRESS */
  datatype ReadPlace = ReadPlace(r: nat, pos: nat, left: nat, reading: bool)

  predicate ReadStands(msgs: seq<Msg>, q: ReadPlace, popped: int) {
    && q.r <= |msgs|
    && (if q.reading then
          && q.r < |msgs| && msgs[q.r].read && q.left > 0 && q.pos + q.left == |msgs[q.r].data|
          && ReadStart(msgs, q.r) + q.pos == popped
        else ReadStart(msgs, q.r) == popped)
  }

  lemma SliceGrows<T>(s: seq<T>, from: nat, to: nat)
    requires from <= to < |s|
    ensures s[from..to + 1] == s[from..to] + [s[to]]
  {
  }

  lemma TakeGrows<T>(s: seq<T>, to: nat)
    requires to < |s|
    ensures s[..to + 1] == s[..to] + [s[to]]
  {
  }

  lemma TakeAll<T>(s: seq<T>)
    ensures s[..|s|] == s
  {
  }

  // ----- the bus

  /** The controller's FIFOs; every command ever written to it, and those that the
      bus has carried out; every reply ever read from it; the replies that found room in the RX FIFO, and whether any did not. */
  datatype Hw = Hw(tx: seq<Cmd>, rx: seq<Byte>, emitted: seq<Cmd>, sent: seq<Cmd>, got: seq<Byte>, accepted: seq<Byte>, lost: bool)
  {
    predicate Fits(txDepth: nat, rxDepth: nat) {
      && |tx| <= txDepth && |rx| <= rxDepth
      && emitted == sent + tx && accepted == got + rx
      && (if lost then rxDepth < Reads(sent) else |accepted| == Reads(sent))
    }
  }

  function Reads(cmds: seq<Cmd>): nat {
    if cmds == [] then 0
    else Reads(cmds[..|cmds| - 1]) + if IsRead(cmds[|cmds| - 1]) then 1 else 0
  }

  lemma {:induction false} ReadsGrow(some: seq<Cmd>, all: seq<Cmd>)
    requires some <= all
    ensures Reads(some) <= Reads(all)
  {
    if |some| < |all| {
      ReadsGrow(some, all[..|all| - 1]);
    } else {
      assert some == all;
    }
  }

  lemma {:induction false} ReadsJoin(a: seq<Cmd>, m: Msg, k: nat)
    requires k <= |m.data|
    ensures Reads(a + Commands(m)[..k]) == Reads(a) + if m.read then k else 0
  {
    var cmds := a + Commands(m)[..k];
    if k == 0 {
      assert cmds == a;
    } else {
      ReadsJoin(a, m, k - 1);
      assert cmds[..|cmds| - 1] == a + Commands(m)[..k - 1];
      assert cmds[|cmds| - 1] == Command(m, k - 1);
    }
  }

  /** The program asks for exactly the bytes that the read messages take. */
  lemma {:induction false} ProgramReads(msgs: seq<Msg>, i: nat)
    requires i <= |msgs|
    ensures Reads(Program(msgs[..i])) == ReadStart(msgs, i)
  {
    if i > 0 {
      ProgramReads(msgs, i - 1);
      assert msgs[..i][..i - 1] == msgs[..i - 1];
      var m := msgs[i - 1];
      assert Commands(m)[..|m.data|] == Commands(m);
      ReadsJoin(Program(msgs[..i - 1]), m, |m.data|);
    }
  }

  /** The bus carries out one command. */
  function AfterBus(h: Hw, reply: Byte, rxDepth: nat): (g: Hw)
    ensures g.emitted == h.emitted && g.got == h.got && |h.rx| <= |g.rx|
    ensures if h.tx == [] then g == h else |g.tx| == |h.tx| - 1
  {
    if h.tx == [] then h
    else
      var g := h.(tx := h.tx[1..], sent := h.sent + [h.tx[0]]);
      if !IsRead(h.tx[0]) then g
      else if |h.rx| < rxDepth then g.(rx := g.rx + [reply], accepted := g.accepted + [reply])
      else g.(lost := true)
  }

  lemma BusKeeps(h: Hw, reply: Byte, txDepth: nat, rxDepth: nat)
    requires h.Fits(txDepth, rxDepth)
    ensures AfterBus(h, reply, rxDepth).Fits(txDepth, rxDepth)
  {
    if h.tx != [] {
      assert (h.sent + [h.tx[0]])[..|h.sent|] == h.sent;
      assert h.tx == [h.tx[0]] + h.tx[1..];
    }
  }

  /** No reply is lost while the messages read no more bytes than the RX FIFO holds. */
  lemma NothingLost(msgs: seq<Msg>, h: Hw, txDepth: nat, rxDepth: nat, g: nat)
    requires h.Fits(txDepth, rxDepth) && g <= |msgs| && h.emitted <= Program(msgs[..g])
    ensures ReadStart(msgs, |msgs|) <= rxDepth ==> !h.lost
  {
    assert h.sent <= h.emitted;
    AskedIsBounded(msgs, h.sent, g);
  }

  lemma AskedIsBounded(msgs: seq<Msg>, sent: seq<Cmd>, g: nat)
    requires g <= |msgs| && sent <= Program(msgs[..g])
    ensures Reads(sent) <= ReadStart(msgs, |msgs|)
  {
    ReadsGrow(sent, Program(msgs[..g]));
    ProgramReads(msgs, g);
    if g < |msgs| {
      ReadStartGrows(msgs, g, |msgs|);
    }
  }

  /** The whole program sent, nothing lost and the FIFOs empty: all replies are read. */
  lemma AllRead(msgs: seq<Msg>, h: Hw, txDepth: nat, rxDepth: nat)
    requires h.Fits(txDepth, rxDepth) && h.emitted == Program(msgs) && !h.lost && h.tx == h.rx == []
    ensures |h.got| == ReadStart(msgs, |msgs|)
  {
    assert h.sent == h.emitted && h.accepted == h.got;
    assert msgs[..|msgs|] == msgs;
    ProgramReads(msgs, |msgs|);
  }

  // ----- whole transfers

  /** Which interrupts are enabled: the default set, without TX_EMPTY, or none. */
  datatype Mask = Default | NoTxEmpty | Off

  /** The bits of the interrupt status that the handler looks at. */
  datatype Status = Status(txAbrt: bool, rxFull: bool, txEmpty: bool, stopDet: bool)

  datatype Event = Bus(reply: Byte) | Irq(stat: Status)

  function MaskFor(msgs: seq<Msg>, p: Place): Mask {
    if p.err then Off else if p.w == |msgs| then NoTxEmpty else Default
  }

  /** The messages and the two FIFO depths. */
  datatype Job = Job(msgs: seq<Msg>, txDepth: nat, rxDepth: nat)

  datatype State = State(hw: Hw, bufs: seq<seq<Byte>>, pump: Place, reader: ReadPlace, cmdErr: bool, mask: Mask)

  predicate Sane(j: Job, s: State) {
    && j.msgs != [] && s.hw.Fits(j.txDepth, j.rxDepth)
    && s.bufs == Filled(j.msgs, s.hw.got)
    && if s.cmdErr then s.mask.Off?
       else
         && s.mask == MaskFor(j.msgs, s.pump)
         && Rests(j.msgs, s.pump, s.hw.emitted)
         && ReadStands(j.msgs, s.reader, |s.hw.got|)
  }

  predicate Enabled(s: State, stat: Status) {
    !s.mask.Off? && (stat.txEmpty ==> s.mask.Default?)
  }

  /** What a TX_EMPTY interrupt gets done between `s` and `t`: the pump stands
      settled, it has sent something if both FIFOs had room to the end, and it stops
      inside a message only once it has used up the room of one of them. */
  predicate Sends(j: Job, s: State, t: State) {
    var sent := |t.hw.emitted| - |s.hw.emitted|;
    && Settled(j.msgs, t.pump, t.hw.emitted) && t.mask == MaskFor(j.msgs, t.pump)
    && (|s.hw.tx| < j.txDepth && |t.hw.rx| < j.rxDepth ==> t.pump.err || sent > 0)
    && (t.pump.writing ==> sent >= j.txDepth - |s.hw.tx| || sent >= j.rxDepth - |t.hw.rx|)
  }

  /** What an RX_FULL interrupt gets done: all replies that were there are taken, or
      every read message is complete. */
  predicate Takes(j: Job, s: State, t: State) {
    && (t.reader.reading || t.reader.r == |j.msgs|)
    && |t.hw.got| >= Min(|s.hw.got| + |s.hw.rx|, ReadStart(j.msgs, |j.msgs|))
  }

  /** The handler's work, bit by bit of the status. */
  predicate Served(j: Job, s: State, stat: Status, t: State) {
    && t.cmdErr == stat.txAbrt
    && if stat.txAbrt then t.hw.got == s.hw.got && t.bufs == s.bufs
       else
         && s.hw.emitted <= t.hw.emitted && s.hw.got <= t.hw.got
         && (if stat.txEmpty then Sends(j, s, t)
             else t.hw.emitted == s.hw.emitted && t.pump == s.pump && t.mask == s.mask)
         && (if stat.rxFull then Takes(j, s, t)
             else t.hw.got == s.hw.got && t.reader == s.reader && t.bufs == s.bufs)
  }

  predicate Moves(j: Job, s: State, e: Event, t: State) {
    match e
    case Bus(reply) => t == s.(hw := AfterBus(s.hw, reply, j.rxDepth))
    case Irq(stat) => if Enabled(s, stat) then Served(j, s, stat, t) else t == s
  }

  /** The course of a transfer: its events and the states between them. */
  datatype Course = Begin(now: State) | Then(before: Course, e: Event, now: State)
  {
    function First(): State {
      if Begin? then now else before.First()
    }

    function Events(): seq<Event> {
      if Begin? then [] else before.Events() + [e]
    }
  }

  predicate IsCourse(j: Job, c: Course) {
    && Sane(j, c.now)
    && (c.Then? ==> IsCourse(j, c.before) && Moves(j, c.before.now, c.e, c.now))
  }

  /** A TX_EMPTY interrupt that is served, and finds and leaves room. */
  predicate HasRoom(j: Job, s: State, e: Event, t: State) {
    && e.Irq? && e.stat.txEmpty && !e.stat.txAbrt && s.mask.Default?
    && |s.hw.tx| < j.txDepth && |t.hw.rx| < j.rxDepth
  }

  /** How many of the events are such interrupts. */
  function Openings(j: Job, c: Course): nat {
    if c.Begin? then 0
    else Openings(j, c.before) + if HasRoom(j, c.before.now, c.e, c.now) then 1 else 0
  }

  /** One step of a transfer that has not been aborted. */
  lemma MoveWorks(j: Job, s: State, e: Event, t: State)
    requires Sane(j, s) && Sane(j, t) && Moves(j, s, e, t) && !t.cmdErr
    ensures !s.cmdErr && (s.pump.err ==> t.pump.err)
    ensures t.pump.err ||
            |t.hw.emitted| >= |s.hw.emitted| + if HasRoom(j, s, e, t) then 1 else 0
  {
  }

  /** Every served TX_EMPTY interrupt with room sends a command or ends in an error. */
  lemma {:induction false} OpeningsWork(j: Job, c: Course)
    requires IsCourse(j, c) && !c.now.cmdErr
    ensures !c.First().cmdErr
    ensures c.now.pump.err || |c.now.hw.emitted| >= |c.First().hw.emitted| + Openings(j, c)
  {
    if c.Then? {
      MoveWorks(j, c.before.now, c.e, c.now);
      OpeningsWork(j, c.before);
    }
  }

  /** So enough of them send the whole program, or run into the bad message. */
  lemma EnoughOpeningsEnd(j: Job, c: Course)
    requires IsCourse(j, c) && !c.now.cmdErr
    ensures var g := Good(j.msgs, 0);
            var left := |Program(j.msgs[..g])| - |c.First().hw.emitted|;
            && (!c.now.pump.err ==> Openings(j, c) <= left)
            && (g == |j.msgs| && Openings(j, c) >= left ==>
                  c.now.mask.NoTxEmpty? && c.now.hw.emitted == Program(j.msgs))
  {
    OpeningsWork(j, c);
    assert j.msgs[..|j.msgs|] == j.msgs;
    PumpOutcome(j.msgs, c.now.pump, c.now.hw.emitted);
  }

  /** Once everything is sent, nothing lost and the TX FIFO empty, one RX_FULL
      interrupt fills all that is left of the read buffers. */
  lemma LastReadFills(j: Job, s: State, stat: Status, t: State)
    requires Sane(j, s) && Sane(j, t) && Moves(j, s, Irq(stat), t) && Enabled(s, stat) && stat.rxFull && !stat.txAbrt
    requires s.mask.NoTxEmpty? && !s.hw.lost && s.hw.tx == []
    ensures |t.hw.got| == ReadStart(j.msgs, |j.msgs|)
  {
    PumpOutcome(j.msgs, s.pump, s.hw.emitted);
    assert s.hw.sent == s.hw.emitted && j.msgs[..|j.msgs|] == j.msgs;
    ProgramReads(j.msgs, |j.msgs|);
    ReadNoMore(j, t);
  }

  lemma ReadNoMore(j: Job, s: State)
    requires Sane(j, s) && !s.cmdErr
    ensures |s.hw.got| <= ReadStart(j.msgs, |j.msgs|)
  {
    PlaceBounded(j.msgs, s.reader, |s.hw.got|);
  }

  lemma PlaceBounded(msgs: seq<Msg>, q: ReadPlace, popped: int)
    requires ReadStands(msgs, q, popped)
    ensures popped <= ReadStart(msgs, |msgs|)
  {
    if q.r < |msgs| {
      ReadStartGrows(msgs, q.r, |msgs|);
    }
  }

  // ----- the driver

  class Driver {
    const msgs: seq<Msg>
    const txDepth: nat
    const rxDepth: nat
    var hw: Hw
    var bufs: seq<seq<Byte>>
    var pump: Place
    var reader: ReadPlace
    var cmdErr: bool
    var mask: Mask

    ghost function Setup(): Job {
      Job(msgs, txDepth, rxDepth)
    }

    ghost function Now(): State
      reads this
    {
      State(hw, bufs, pump, reader, cmdErr, mask)
    }

    ghost predicate Valid()
      reads this
    {
      Sane(Setup(), Now())
    }

    /** fh_i2c_xfer takes the messages on an idle bus. */
    constructor (msgs: seq<Msg>, txDepth: nat, rxDepth: nat)
      requires msgs != []
      ensures Valid() && !cmdErr && this.msgs == msgs && hw.emitted == [] && hw.got == []
    {
      this.msgs, this.txDepth, this.rxDepth := msgs, txDepth, rxDepth;
      hw := Hw([], [], [], [], [], [], false);
      bufs := seq(|msgs|, i requires 0 <= i < |msgs| => msgs[i].data);
      pump := Place(0, 0, 0, false, false);
      reader := ReadPlace(0, 0, 0, false);
      cmdErr, mask := false, Default;
    }

    /** The bus does whatever it does between two accesses of the driver. */
    method BusMoves()
      requires hw.Fits(txDepth, rxDepth)
      modifies this`hw
      ensures hw.Fits(txDepth, rxDepth)
      ensures hw.emitted == old(hw.emitted) && hw.got == old(hw.got)
      ensures |hw.tx| <= old(|hw.tx|) && old(|hw.rx|) <= |hw.rx|
    {
      var n: nat := *;
      while n > 0
        invariant hw.Fits(txDepth, rxDepth)
        invariant hw.emitted == old(hw.emitted) && hw.got == old(hw.got)
        invariant |hw.tx| <= old(|hw.tx|) && old(|hw.rx|) <= |hw.rx|
      {
        var reply: Byte := *;
        BusKeeps(hw, reply, txDepth, rxDepth);
        hw := AfterBus(hw, reply, rxDepth);
        n := n - 1;
      }
    }

    /** while (I2C_GetTransmitFifoLevel(i2c_obj)); */
    method BusDrains()
      requires hw.Fits(txDepth, rxDepth)
      modifies this`hw
      ensures hw.Fits(txDepth, rxDepth) && hw.tx == []
      ensures hw.emitted == old(hw.emitted) && hw.got == old(hw.got) && old(|hw.rx|) <= |hw.rx|
    {
      while hw.tx != []
        invariant hw.Fits(txDepth, rxDepth)
        invariant hw.emitted == old(hw.emitted) && hw.got == old(hw.got) && old(|hw.rx|) <= |hw.rx|
        decreases |hw.tx|
      {
        var reply: Byte := *;
        BusKeeps(hw, reply, txDepth, rxDepth);
        hw := AfterBus(hw, reply, rxDepth);
      }
    }

    /** I2C_SetDataCmd */
    method SetDataCmd(cmd: Cmd)
      requires hw.Fits(txDepth, rxDepth) && |hw.tx| < txDepth
      modifies this`hw
      ensures hw.Fits(txDepth, rxDepth)
      ensures hw.emitted == old(hw.emitted) + [cmd] && hw.got == old(hw.got)
      ensures |hw.tx| == old(|hw.tx|) + 1 && |hw.rx| == old(|hw.rx|)
    {
      hw := hw.(tx := hw.tx + [cmd], emitted := hw.emitted + [cmd]);
    }

    /** I2C_GetData */
    method GetData() returns (x: Byte)
      requires hw.Fits(txDepth, rxDepth) && hw.rx != []
      modifies this`hw
      ensures hw.Fits(txDepth, rxDepth)
      ensures hw.emitted == old(hw.emitted) && hw.got == old(hw.got) + [x]
      ensures |hw.rx| == old(|hw.rx|) - 1 && hw.tx == old(hw.tx)
    {
      x := hw.rx[0];
      hw := hw.(rx := hw.rx[1..], got := hw.got + [x]);
    }

    /** The inner loop of i2c_fh_xfer_msg: as much of `m`, from byte `from` on, as
        the FIFO levels seen on entry allow. */
    method Push(m: Msg, from: nat) returns (pos: nat)
      requires hw.Fits(txDepth, rxDepth) && from <= |m.data|
      modifies this`hw
      ensures hw.Fits(txDepth, rxDepth) && hw.got == old(hw.got) && old(|hw.rx|) <= |hw.rx|
      ensures from <= pos <= |m.data| && |hw.tx| <= old(|hw.tx|) + pos - from
      ensures hw.emitted == old(hw.emitted) + Commands(m)[from..pos]
      ensures from < |m.data| && old(|hw.tx|) < txDepth && |hw.rx| < rxDepth ==> from < pos
      ensures pos < |m.data| ==> pos - from >= txDepth - old(|hw.tx|) || pos - from >= rxDepth - |hw.rx|
      ensures from < pos ==> old(|hw.rx|) < rxDepth && (m.read ==> pos - from <= rxDepth - old(|hw.rx|))
    {
      pos := from;
      BusMoves();
      var txLimit, rxLimit := txDepth - |hw.tx|, rxDepth - |hw.rx|;
      while pos < |m.data| && txLimit > 0 && rxLimit > 0
        invariant hw.Fits(txDepth, rxDepth) && hw.got == old(hw.got) && old(|hw.rx|) <= |hw.rx|
        invariant from <= pos <= |m.data| && txLimit + |hw.tx| <= txDepth && |hw.tx| <= old(|hw.tx|) + pos - from
        invariant hw.emitted == old(hw.emitted) + Commands(m)[from..pos]
        invariant txLimit >= txDepth - old(|hw.tx|) - (pos - from) && rxLimit >= rxDepth - |hw.rx| - (pos - from)
        invariant 0 <= rxLimit <= rxDepth - old(|hw.rx|) - if m.read then pos - from else 0
        invariant from < pos ==> old(|hw.rx|) < rxDepth
      {
        rxLimit := if m.read then rxLimit - 1 else rxLimit;
        txLimit := txLimit - 1;
        Emit(m, pos);
        SliceGrows(Commands(m), from, pos);
        pos := pos + 1;
      }
    }

    /** Byte `pos` of a message as a command; the last one waits for the TX FIFO to drain. */
    method Emit(m: Msg, pos: nat)
      requires hw.Fits(txDepth, rxDepth) && pos < |m.data| && |hw.tx| < txDepth
      modifies this`hw
      ensures hw.Fits(txDepth, rxDepth) && hw.got == old(hw.got) && old(|hw.rx|) <= |hw.rx|
      ensures hw.emitted == old(hw.emitted) + [Commands(m)[pos]] && |hw.tx| <= old(|hw.tx|) + 1
    {
      var cmd: int := if m.read then 0x100 else m.data[pos];
      if pos + 1 == |m.data| {
        BusDrains();
        cmd := cmd + 0x200;
      } else {
        BusMoves();
      }
      SetDataCmd(cmd);
    }

    /** One round of the loop of i2c_fh_xfer_msg. */
    method PumpMessage(addr: nat) returns (again: bool)
      requires hw.Fits(txDepth, rxDepth) && bufs == Filled(msgs, hw.got)
      requires Stands(msgs, pump, hw.emitted) && !pump.err && pump.w < |msgs|
      requires msgs[0].addr == addr && (pump.writing ==> Fits(msgs, pump.w))
      modifies this`hw, this`pump
      ensures hw.Fits(txDepth, rxDepth) && hw.got == old(hw.got) && old(hw.emitted) <= hw.emitted
      ensures old(|hw.rx|) <= |hw.rx| && |hw.tx| - old(|hw.tx|) <= |hw.emitted| - old(|hw.emitted|)
      ensures Stands(msgs, pump, hw.emitted)
      ensures !again && pump.writing ==>
                var sent := |hw.emitted| - old(|hw.emitted|);
                sent >= txDepth - old(|hw.tx|) || sent >= rxDepth - |hw.rx|
      ensures again ==> !pump.err && !pump.writing && pump.w == old(pump.w) + 1
      ensures !again ==> pump.w == old(pump.w) && Settled(msgs, pump, hw.emitted)
      ensures old(|hw.tx|) < txDepth && |hw.rx| < rxDepth ==> pump.err || |hw.emitted| > old(|hw.emitted|)
    {
      if msgs[pump.w].addr != addr || msgs[pump.w].data == [] {
        StandsAtBad(msgs, pump, hw.emitted);
        pump := pump.(err := true);
        return false;
      }
      ghost var p, cmds := pump, hw.emitted;
      var len := |msgs[pump.w].data|;
      UnreadCommands(msgs, hw.got, pump.w);
      var next := Push(msgs[pump.w].(data := bufs[pump.w]), From(pump));
      StandsOn(msgs, p, cmds, next);
      pump := pump.(pos := next, left := len - next);
      again := pump.left == 0;
      if again {
        pump := pump.(writing := false, w := pump.w + 1);
      } else {
        pump := pump.(writing := true);
      }
      assert pump == Onward(msgs, p, next);
    }

    /** i2c_fh_xfer_msg */
    method XferMsg()
      requires hw.Fits(txDepth, rxDepth) && bufs == Filled(msgs, hw.got)
      requires Rests(msgs, pump, hw.emitted) && pump.w < |msgs| && !pump.err
      modifies this`hw, this`pump, this`mask
      ensures hw.Fits(txDepth, rxDepth) && hw.got == old(hw.got)
      ensures old(hw.emitted) <= hw.emitted && Sends(Setup(), old(Now()), Now())
    {
      AddressHolds(msgs, pump, hw.emitted);
      var addr := msgs[pump.w].addr;
      var again := PumpMessage(addr);
      while again && pump.w < |msgs|
        invariant hw.Fits(txDepth, rxDepth) && hw.got == old(hw.got) && old(hw.emitted) <= hw.emitted
        invariant Stands(msgs, pump, hw.emitted) && old(|hw.rx|) <= |hw.rx|
        invariant |hw.tx| - old(|hw.tx|) <= |hw.emitted| - old(|hw.emitted|)
        invariant !again && pump.writing ==>
                    var sent := |hw.emitted| - old(|hw.emitted|);
                    sent >= txDepth - old(|hw.tx|) || sent >= rxDepth - |hw.rx|
        invariant if again then !pump.err && !pump.writing else Settled(msgs, pump, hw.emitted)
        invariant old(|hw.tx|) < txDepth && |hw.rx| < rxDepth ==> pump.err || |hw.emitted| > old(|hw.emitted|)
        decreases |msgs| - pump.w, again
      {
        ghost var before := hw.emitted;
        again := PumpMessage(addr);
        assert old(hw.emitted) <= before <= hw.emitted;
      }
      mask := MaskFor(msgs, pump);
    }

    /** i2c_fh_read */
    method Read()
      requires hw.Fits(txDepth, rxDepth) && bufs == Filled(msgs, hw.got)
      requires ReadStands(msgs, reader, |hw.got|)
      modifies this`hw, this`reader, this`bufs
      ensures hw.Fits(txDepth, rxDepth) && bufs == Filled(msgs, hw.got)
      ensures ReadStands(msgs, reader, |hw.got|) && (reader.reading || reader.r == |msgs|)
      ensures hw.emitted == old(hw.emitted) && old(hw.got) <= hw.got && |hw.tx| <= old(|hw.tx|)
      ensures Takes(Setup(), old(Now()), Now())
    {
      var again := true;
      while again && reader.r < |msgs|
        invariant hw.Fits(txDepth, rxDepth) && bufs == Filled(msgs, hw.got)
        invariant ReadStands(msgs, reader, |hw.got|)
        invariant hw.emitted == old(hw.emitted) && old(hw.got) <= hw.got && |hw.tx| <= old(|hw.tx|)
        invariant |hw.got| + |hw.rx| >= |old(hw.got)| + |old(hw.rx)|
        invariant if again then reader.reading ==> reader == old(reader)
                  else reader.reading && |hw.got| >= |old(hw.got)| + |old(hw.rx)|
        decreases again, |msgs| - reader.r
      {
        again := ReadMessage();
      }
    }

    /** One round of the loop of i2c_fh_read. */
    method ReadMessage() returns (again: bool)
      requires hw.Fits(txDepth, rxDepth) && bufs == Filled(msgs, hw.got)
      requires ReadStands(msgs, reader, |hw.got|) && reader.r < |msgs|
      modifies this`hw, this`reader, this`bufs
      ensures hw.Fits(txDepth, rxDepth) && bufs == Filled(msgs, hw.got)
      ensures ReadStands(msgs, reader, |hw.got|)
      ensures hw.emitted == old(hw.emitted) && old(hw.got) <= hw.got && |hw.tx| <= old(|hw.tx|)
      ensures |hw.got| + |hw.rx| >= |old(hw.got)| + |old(hw.rx)|
      ensures if again then !reader.reading && reader.r == old(reader.r) + 1
              else reader.reading && |hw.got| >= |old(hw.got)| + |old(hw.rx)|
    {
      if !msgs[reader.r].read {
        reader := reader.(r := reader.r + 1);
        return true;
      }
      var len := |msgs[reader.r].data|;
      var left := if reader.reading then reader.left else len;
      left := Pop(left);
      again := left == 0;
      if again {
        reader := reader.(reading := false, r := reader.r + 1);
      } else {
        reader := reader.(pos := len - left, left := left, reading := true);
      }
    }

    /** The inner loop of i2c_fh_read: up to `todo` of the replies there on entry. */
    method Pop(todo: nat) returns (left: nat)
      requires hw.Fits(txDepth, rxDepth) && bufs == Filled(msgs, hw.got) && reader.r < |msgs| && msgs[reader.r].read && todo <= |msgs[reader.r].data|
      requires ReadStart(msgs, reader.r) + |msgs[reader.r].data| - todo == |hw.got|
      modifies this`hw, this`bufs
      ensures hw.Fits(txDepth, rxDepth) && bufs == Filled(msgs, hw.got) && left <= todo
      ensures ReadStart(msgs, reader.r) + |msgs[reader.r].data| - left == |hw.got|
      ensures hw.emitted == old(hw.emitted) && old(hw.got) <= hw.got && |hw.tx| <= old(|hw.tx|)
      ensures |hw.got| + |hw.rx| >= |old(hw.got)| + |old(hw.rx)|
      ensures left > 0 ==> |hw.got| >= |old(hw.got)| + |old(hw.rx)|
    {
      BusMoves();
      var rxValid := |hw.rx|;
      left := todo;
      ghost var total := |hw.got| + |hw.rx|;
      while left > 0 && rxValid > 0
        invariant hw.Fits(txDepth, rxDepth) && bufs == Filled(msgs, hw.got) && left <= todo && rxValid == total - |hw.got|
        invariant total <= |hw.got| + |hw.rx|
        invariant ReadStart(msgs, reader.r) + |msgs[reader.r].data| - left == |hw.got|
        invariant hw.emitted == old(hw.emitted) && old(hw.got) <= hw.got && |hw.tx| <= old(|hw.tx|)
      {
        var pos := |msgs[reader.r].data| - left;
        BusMoves();
        ghost var got := hw.got;
        var x := GetData();
        ReplyLands(msgs, got, reader.r, pos, x);
        bufs := bufs[reader.r := Put(bufs[reader.r], pos, x)];
        left, rxValid := left - 1, rxValid - 1;
      }
    }

    /** The handler's answer to TX_ABRT, on which the hardware flushes the TX FIFO;
        nothing reads the RX FIFO afterwards. */
    method Abort()
      requires Valid()
      modifies this`cmdErr, this`pump, this`reader, this`hw, this`mask
      ensures Valid() && cmdErr && hw.got == old(hw.got)
    {
      cmdErr := true;
      pump, reader := pump.(writing := false), reader.(reading := false);
      hw := hw.(tx := [], emitted := hw.sent);
      mask := Off;
    }

    /** fh_i2c_interrupt; `done` is whether it ends the transfer. */
    method Interrupt(stat: Status) returns (done: bool)
      requires Valid() && Enabled(Now(), stat)
      modifies this
      ensures Valid() && Served(Setup(), old(Now()), stat, Now())
      ensures done <==> stat.txAbrt || stat.stopDet || pump.err
    {
      if stat.txAbrt {
        Abort();
        return true;
      }
      if stat.rxFull {
        Read();
        assert Valid();
      }
      if stat.txEmpty {
        XferMsg();
        assert Rests(msgs, pump, hw.emitted);
        assert Valid();
      }
      done := stat.stopDet || pump.err;
    }

    /** The bus moves, or an enabled interrupt fires. */
    method Handle(event: Event)
      requires Valid()
      modifies this
      ensures Valid() && Moves(Setup(), old(Now()), event, Now())
    {
      match event {
        case Bus(reply) =>
          BusKeeps(hw, reply, txDepth, rxDepth);
          hw := AfterBus(hw, reply, rxDepth);
        case Irq(stat) =>
          if !mask.Off? && (stat.txEmpty ==> mask.Default?) {
            var done := Interrupt(stat);
          }
      }
    }

    /** Any sequence of bus activity and interrupts. */
    method RunEvents(events: seq<Event>) returns (ghost course: Course)
      requires Valid()
      modifies this
      ensures IsCourse(Setup(), course)
      ensures course.Events() == events && course.First() == old(Now()) && course.now == Now()
    {
      course := Begin(Now());
      for i := 0 to |events|
        invariant IsCourse(Setup(), course)
        invariant course.Events() == events[..i] && course.First() == old(Now()) && course.now == Now()
      {
        course := Advance(course, events[i]);
        TakeGrows(events, i);
      }
      TakeAll(events);
    }

    /** One event, added to the course so far. */
    method Advance(ghost course: Course, event: Event) returns (ghost course': Course)
      requires IsCourse(Setup(), course) && course.now == Now()
      modifies this
      ensures IsCourse(Setup(), course') && course'.now == Now()
      ensures course'.Events() == course.Events() + [event] && course'.First() == course.First()
    {
      Handle(event);
      course' := Then(course, event, Now());
    }

    /** Any run of a transfer: bus activity and interrupts in any order, cutting it
        anywhere. */
    method Transfer(events: seq<Event>) returns (ghost course: Course)
      requires Valid()
      modifies this
      ensures IsCourse(Setup(), course)
      ensures course.Events() == events && course.First() == old(Now()) && course.now == Now()
      ensures |hw.tx| <= txDepth
      ensures bufs == Filled(msgs, hw.got) && hw.accepted == hw.got + hw.rx
      ensures cmdErr ==> mask.Off?
      ensures !cmdErr ==> hw.emitted <= Program(msgs[..Good(msgs, 0)])
      ensures !cmdErr ==> (mask.NoTxEmpty? <==> hw.emitted == Program(msgs) && Good(msgs, 0) == |msgs|)
      ensures !cmdErr && mask.Off? ==> hw.emitted == Program(msgs[..Good(msgs, 0)]) && Good(msgs, 0) < |msgs|
      ensures var openings := Openings(Setup(), course);
              && (!cmdErr && !mask.Off? ==> |hw.emitted| >= |old(hw.emitted)| + openings)
              && (!cmdErr && Good(msgs, 0) == |msgs| && openings >= |Program(msgs)| - |old(hw.emitted)| ==>
                    mask.NoTxEmpty?)
      ensures mask.NoTxEmpty? && !hw.lost && hw.tx == hw.rx == [] ==> |hw.got| == ReadStart(msgs, |msgs|)
      ensures !cmdErr && ReadStart(msgs, |msgs|) <= rxDepth ==> !hw.lost
    {
      course := RunEvents(events);
      if !cmdErr {
        OpeningsWork(Setup(), course);
        EnoughOpeningsEnd(Setup(), course);
        assert msgs[..|msgs|] == msgs;
        PumpOutcome(msgs, pump, hw.emitted);
        if mask.NoTxEmpty? && !hw.lost && hw.tx == hw.rx == [] {
          AllRead(msgs, hw, txDepth, rxDepth);
        }
        NothingLost(msgs, hw, txDepth, rxDepth, Good(msgs, 0));
      }
    }
  }
}
