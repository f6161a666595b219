/** Whether the RX FIFO can overflow under drivers/i2c.c: the handler step by step,
    with the bus moving between any two steps. The thresholds are those that
    Libraries/driverlib/fh_i2c.c:317-319 programs: RX_FULL at one reply or more,
    TX_EMPTY with room for one command or more. */
module I2cLevels {
  import opened Common

  type Positive = n: int | n >= 1 witness 1

  datatype Msg = Msg(read: bool, len: Positive)

  datatype Fifos = Fifos(txDepth: nat, rxDepth: nat)

  /** Where the handler is: not running; about to read the RX level in i2c_fh_read,
      or to take `valid` more replies; about to read the TX level and then the RX
      level in i2c_fh_xfer_msg, in its inner loop, or waiting for the TX FIFO to
      empty before the last command of a message. */
  datatype Phase =
    | Idle
    | ReadLevel(txEmpty: bool)
    | Popping(valid: nat, txEmpty: bool)
    | TxLevel
    | RxLevel(txLimit: nat)
    | Pushing(txLimit: nat, rxLimit: nat)
    | Draining

  /** `todo` has the messages with commands still to be sent, `owed` the read
      messages with replies still to be taken. The TX FIFO holds requests for a
      reply (true) and other commands; `lost` is whether a reply ever found the RX
      FIFO full. */
  datatype State = State(phase: Phase, todo: seq<Msg>, owed: seq<nat>, tx: seq<bool>, rx: nat, lost: bool)

  datatype Event = Bus | Driver

  function AfterBus(s: State, f: Fifos): State {
    if s.tx == [] then s
    else
      var t := s.(tx := s.tx[1..]);
      if !s.tx[0] then t else if s.rx < f.rxDepth then t.(rx := s.rx + 1) else t.(lost := true)
  }

  function Minus(a: nat, b: nat): nat {
    if a < b then 0 else a - b
  }

  /** An interrupt is enabled and pending: the handler is called. */
  function FromIdle(s: State, f: Fifos): State {
    var txEmpty := s.todo != [] && |s.tx| < f.txDepth;
    if s.rx >= 1 then s.(phase := ReadLevel(txEmpty)) else if txEmpty then s.(phase := TxLevel) else s
  }

  /** i2c_fh_read takes a reply, goes on to the next message, or is done. */
  function Pop(s: State, valid: nat, txEmpty: bool): State {
    if s.owed == [] then AfterRead(s, txEmpty)
    else if s.owed[0] == 0 then s.(phase := ReadLevel(txEmpty), owed := s.owed[1..])
    else if valid == 0 || s.rx == 0 then AfterRead(s, txEmpty)
    else s.(phase := Popping(valid - 1, txEmpty), owed := OneTaken(s.owed), rx := s.rx - 1)
  }

  /** The inner loop of i2c_fh_xfer_msg sends a command, or is done. */
  function Push(s: State, txLimit: nat, rxLimit: nat): State {
    if s.todo == [] || txLimit == 0 || rxLimit == 0 then s.(phase := Idle)
    else if s.todo[0].len == 1 then s.(phase := Draining)
    else
      s.(phase := Pushing(txLimit - 1, if s.todo[0].read then rxLimit - 1 else rxLimit),
         todo := OneSent(s.todo), tx := s.tx + [s.todo[0].read])
  }

  /** It sends the last command of a message once the TX FIFO is empty. */
  function Drain(s: State): State {
    if s.tx != [] || s.todo == [] then s
    else s.(phase := TxLevel, todo := s.todo[1..], tx := [s.todo[0].read])
  }

  /** The next step of the handler, or its next call. */
  function AfterDriver(s: State, f: Fifos): State {
    match s.phase
    case Idle => FromIdle(s, f)
    case ReadLevel(txEmpty) =>
      if s.owed == [] then AfterRead(s, txEmpty) else s.(phase := Popping(s.rx, txEmpty))
    case Popping(valid, txEmpty) => Pop(s, valid, txEmpty)
    case TxLevel =>
      if s.todo == [] then s.(phase := Idle) else s.(phase := RxLevel(Minus(f.txDepth, |s.tx|)))
    case RxLevel(txLimit) => s.(phase := Pushing(txLimit, Minus(f.rxDepth, s.rx)))
    case Pushing(txLimit, rxLimit) => Push(s, txLimit, rxLimit)
    case Draining => Drain(s)
  }

  function OneSent(msgs: seq<Msg>): (r: seq<Msg>)
    requires msgs != [] && msgs[0].len > 1
    ensures |r| == |msgs| && r[0] == Msg(msgs[0].read, msgs[0].len - 1) && r[1..] == msgs[1..]
  {
    [Msg(msgs[0].read, msgs[0].len - 1)] + msgs[1..]
  }

  function OneTaken(owed: seq<nat>): (r: seq<nat>)
    requires owed != [] && owed[0] >= 1
    ensures |r| == |owed| && r[0] == owed[0] - 1 && r[1..] == owed[1..]
  {
    [owed[0] - 1] + owed[1..]
  }

  function AfterRead(s: State, txEmpty: bool): State {
    s.(phase := if txEmpty then TxLevel else Idle)
  }

  function Step(s: State, f: Fifos, e: Event): State {
    match e
    case Bus => AfterBus(s, f)
    case Driver => AfterDriver(s, f)
  }

  function Run(s: State, f: Fifos, events: seq<Event>): State
    decreases |events|
  {
    if events == [] then s else Run(Step(s, f, events[0]), f, events[1..])
  }

  /** Lengths of the read messages. */
  function Reads(msgs: seq<Msg>): seq<nat> {
    if msgs == [] then [] else (if msgs[0].read then [msgs[0].len] else []) + Reads(msgs[1..])
  }

  function Sum(ns: seq<nat>): nat {
    if ns == [] then 0 else ns[0] + Sum(ns[1..])
  }

  predicate Writes(msgs: seq<Msg>) {
    forall i :: 0 <= i < |msgs| ==> !msgs[i].read
  }

  function Start(msgs: seq<Msg>): State {
    State(Idle, msgs, Reads(msgs), [], 0, false)
  }

  /** Some order of the handler's steps and the bus loses a reply. */
  ghost predicate CanLose(s: State, f: Fifos) {
    exists events :: Run(s, f, events).lost
  }

  // ----- when nothing is lost

  /** Requests underway and replies waiting. */
  function Asked(s: State): nat {
    multiset(s.tx)[true] + s.rx
  }

  /** Replies still to be asked for. */
  function Left(s: State): nat {
    Sum(Reads(s.todo))
  }

  lemma BusAsks(s: State, f: Fifos)
    requires Asked(s) <= f.rxDepth
    ensures var t := AfterBus(s, f); Asked(t) == Asked(s) && t.lost == s.lost && |t.tx| <= |s.tx|
    ensures multiset(AfterBus(s, f).tx)[true] <= multiset(s.tx)[true]
  {
    if s.tx != [] {
      assert s.tx == [s.tx[0]] + s.tx[1..];
    }
  }

  /** While the handler waits, just the last command of a message is to come. */
  predicate Sending(s: State) {
    s.phase.Draining? ==> s.todo != [] && s.todo[0].len == 1
  }

  /** Conserved: replies asked for or still to be asked for, less those still owed. */
  function Balance(s: State): int {
    Left(s) + Asked(s) - Sum(s.owed)
  }

  lemma Queued(tx: seq<bool>, request: bool)
    ensures multiset(tx + [request])[true] == multiset(tx)[true] + if request then 1 else 0
  {
  }

  lemma OneLess(msgs: seq<Msg>)
    requires msgs != [] && msgs[0].len > 1
    ensures Sum(Reads(OneSent(msgs))) == Sum(Reads(msgs)) - if msgs[0].read then 1 else 0
  {
    SumOf(msgs);
    SumOf(OneSent(msgs));
  }

  lemma PushAsks(s: State, txLimit: nat, rxLimit: nat)
    requires Sending(s) && s.phase == Pushing(txLimit, rxLimit)
    ensures var t := Push(s, txLimit, rxLimit);
            Sending(t) && Balance(t) == Balance(s) && t.owed == s.owed && t.lost == s.lost
  {
    if s.todo != [] && s.todo[0].len > 1 {
      OneLess(s.todo);
      Queued(s.tx, s.todo[0].read);
    }
  }

  lemma DrainAsks(s: State)
    requires Sending(s) && s.phase.Draining?
    ensures var t := Drain(s);
            Sending(t) && Balance(t) == Balance(s) && t.owed == s.owed && t.lost == s.lost
  {
    if s.tx == [] {
      SumOf(s.todo);
      Queued([], s.todo[0].read);
      assert [] + [s.todo[0].read] == [s.todo[0].read];
    }
  }

  lemma PopAsks(s: State, valid: nat, txEmpty: bool)
    requires Sending(s) && s.phase.Popping?
    ensures var t := Pop(s, valid, txEmpty);
            Sending(t) && Balance(t) == Balance(s) && t.lost == s.lost && Sum(t.owed) <= Sum(s.owed)
  {
    PopTakes(s, valid, txEmpty);
  }

  lemma PopTakes(s: State, valid: nat, txEmpty: bool)
    ensures var t := Pop(s, valid, txEmpty);
            && t.todo == s.todo && t.tx == s.tx && t.rx <= s.rx && !t.phase.Draining?
            && Sum(s.owed) - Sum(t.owed) == s.rx - t.rx
  {
    if s.owed != [] && s.owed[0] >= 1 {
      SumTaken(s.owed);
    }
  }

  lemma SumTaken(owed: seq<nat>)
    requires owed != [] && owed[0] >= 1
    ensures Sum(OneTaken(owed)) == Sum(owed) - 1
  {
  }

  lemma LevelsAsk(s: State, f: Fifos)
    requires s.phase.Idle? || s.phase.ReadLevel? || s.phase.TxLevel? || s.phase.RxLevel?
    ensures var t := AfterDriver(s, f);
            t.todo == s.todo && t.owed == s.owed && t.tx == s.tx && t.rx == s.rx && t.lost == s.lost && !t.phase.Draining?
  {
  }

  /** No step of the handler loses a reply or changes the balance. */
  lemma DriverAsks(s: State, f: Fifos)
    requires Sending(s)
    ensures var t := AfterDriver(s, f);
            Sending(t) && t.lost == s.lost && Balance(t) == Balance(s) && Sum(t.owed) <= Sum(s.owed)
  {
    match s.phase {
      case Pushing(txLimit, rxLimit) => PushAsks(s, txLimit, rxLimit);
      case Draining => DrainAsks(s);
      case Popping(valid, txEmpty) => PopAsks(s, valid, txEmpty);
      case _ =>
        LevelsAsk(s, f);
        assert Balance(AfterDriver(s, f)) == Balance(s);
    }
  }

  lemma SumOf(msgs: seq<Msg>)
    requires msgs != []
    ensures Sum(Reads(msgs)) == Sum(Reads(msgs[1..])) + if msgs[0].read then msgs[0].len else 0
  {
    if msgs[0].read {
      assert Reads(msgs)[1..] == Reads(msgs[1..]);
    } else {
      assert Reads(msgs) == Reads(msgs[1..]);
    }
  }

  // few replies

  predicate Few(s: State, f: Fifos) {
    !s.lost && Sending(s) && Left(s) + Asked(s) <= f.rxDepth
  }

  lemma FewKept(s: State, f: Fifos, e: Event)
    requires Few(s, f)
    ensures Few(Step(s, f, e), f)
  {
    BusAsks(s, f);
    DriverAsks(s, f);
  }

  lemma {:induction false} FewNeverLose(s: State, f: Fifos, events: seq<Event>)
    requires Few(s, f)
    ensures !Run(s, f, events).lost
    decreases |events|
  {
    if events != [] {
      FewKept(s, f, events[0]);
      FewNeverLose(Step(s, f, events[0]), f, events[1..]);
    }
  }

  // a TX FIFO of one command

  predicate Single(s: State, f: Fifos) {
    && f.txDepth <= 1 && !s.lost && Asked(s) <= f.rxDepth
    && match s.phase
       case RxLevel(txLimit) => txLimit > 0 ==> s.tx == [] && txLimit == 1
       case Pushing(txLimit, rxLimit) => txLimit > 0 ==> s.tx == [] && txLimit == 1 && s.rx + rxLimit <= f.rxDepth
       case Draining => s.rx < f.rxDepth && s.tx == []
       case _ => true
  }

  lemma SinglePush(s: State, f: Fifos)
    requires Single(s, f) && (s.phase.Pushing? || s.phase.Draining?)
    ensures Single(AfterDriver(s, f), f)
  {
  }

  lemma SingleKept(s: State, f: Fifos, e: Event)
    requires Single(s, f)
    ensures Single(Step(s, f, e), f)
  {
    match e
    case Bus => BusAsks(s, f);
    case Driver =>
      if s.phase.Pushing? || s.phase.Draining? {
        SinglePush(s, f);
      }
  }

  lemma {:induction false} SingleNeverLoses(s: State, f: Fifos, events: seq<Event>)
    requires Single(s, f)
    ensures !Run(s, f, events).lost
    decreases |events|
  {
    if events != [] {
      SingleKept(s, f, events[0]);
      SingleNeverLoses(Step(s, f, events[0]), f, events[1..]);
    }
  }

  // one read message and a TX FIFO of at most half the RX FIFO, and one more

  predicate OneRead(msgs: seq<Msg>) {
    |Reads(msgs)| <= 1
  }

  predicate Short(s: State, f: Fifos) {
    var done, t := Reads(s.todo) == [], f.txDepth;
    && t <= f.rxDepth && 2 * t <= f.rxDepth + 2
    && !s.lost && Sending(s) && OneRead(s.todo) && |s.tx| <= t && Asked(s) <= f.rxDepth
    && Sum(s.owed) == Left(s) + Asked(s)
    && (!done && !s.todo[0].read ==> Asked(s) == 0)
    && match s.phase
       case Idle => true
       case ReadLevel(txEmpty) => txEmpty ==> |s.tx| < t
       case Popping(valid, txEmpty) => valid <= s.rx && (txEmpty ==> s.rx - valid + |s.tx| < t)
       case TxLevel => done || Asked(s) == 0 || s.rx + |s.tx| < t
       case RxLevel(txLimit) =>
         |s.tx| + txLimit <= t && (done || multiset(s.tx)[true] == 0 || Asked(s) + txLimit <= 2 * t - 2)
       case Pushing(txLimit, rxLimit) =>
         |s.tx| + txLimit <= t && (done || !s.todo[0].read || Asked(s) + Min(txLimit, rxLimit) <= f.rxDepth)
       case Draining => t >= 1 && (done || !s.todo[0].read || Asked(s) < f.rxDepth)
  }

  lemma ReadsHead(msgs: seq<Msg>)
    requires msgs != []
    ensures |Reads(msgs)| == |Reads(msgs[1..])| + if msgs[0].read then 1 else 0
  {
  }

  lemma SameReads(msgs: seq<Msg>)
    requires msgs != [] && msgs[0].len > 1
    ensures |Reads(OneSent(msgs))| == |Reads(msgs)|
  {
    ReadsHead(msgs);
    ReadsHead(OneSent(msgs));
  }

  lemma ShortBus(s: State, f: Fifos)
    requires Short(s, f)
    ensures Short(AfterBus(s, f), f)
  {
    BusAsks(s, f);
  }

  lemma ShortIdle(s: State, f: Fifos)
    requires Short(s, f) && s.phase.Idle?
    ensures Short(FromIdle(s, f), f)
  {
  }

  lemma ShortReadLevel(s: State, f: Fifos)
    requires Short(s, f) && s.phase.ReadLevel?
    ensures Short(AfterDriver(s, f), f)
  {
  }

  lemma ShortPumpLevels(s: State, f: Fifos)
    requires Short(s, f) && (s.phase.TxLevel? || s.phase.RxLevel?)
    ensures Short(AfterDriver(s, f), f)
  {
  }

  lemma ShortPop(s: State, f: Fifos, valid: nat, txEmpty: bool)
    requires Short(s, f) && s.phase == Popping(valid, txEmpty)
    ensures Short(Pop(s, valid, txEmpty), f)
  {
    PopAsks(s, valid, txEmpty);
    PopTakes(s, valid, txEmpty);
    assert Left(Pop(s, valid, txEmpty)) == Left(s);
  }

  lemma ShortSend(s: State, f: Fifos, txLimit: nat, rxLimit: nat)
    requires Short(s, f) && s.phase == Pushing(txLimit, rxLimit)
    requires s.todo != [] && s.todo[0].len > 1 && txLimit > 0 && rxLimit > 0
    ensures Short(Push(s, txLimit, rxLimit), f)
  {
    var t := Push(s, txLimit, rxLimit);
    PushAsks(s, txLimit, rxLimit);
    SameReads(s.todo);
    Queued(s.tx, s.todo[0].read);
    assert Asked(t) == Asked(s) + if s.todo[0].read then 1 else 0;
  }

  lemma ShortPush(s: State, f: Fifos, txLimit: nat, rxLimit: nat)
    requires Short(s, f) && s.phase == Pushing(txLimit, rxLimit)
    ensures Short(Push(s, txLimit, rxLimit), f)
  {
    if s.todo != [] && s.todo[0].len > 1 && txLimit > 0 && rxLimit > 0 {
      ShortSend(s, f, txLimit, rxLimit);
    }
  }

  lemma ShortDrain(s: State, f: Fifos)
    requires Short(s, f) && s.phase.Draining?
    ensures Short(Drain(s), f)
  {
    DrainAsks(s);
    ReadsHead(s.todo);
  }

  lemma ShortKept(s: State, f: Fifos, e: Event)
    requires Short(s, f)
    ensures Short(Step(s, f, e), f)
  {
    match e
    case Bus => ShortBus(s, f);
    case Driver =>
      match s.phase {
        case Popping(valid, txEmpty) => ShortPop(s, f, valid, txEmpty);
        case Pushing(txLimit, rxLimit) => ShortPush(s, f, txLimit, rxLimit);
        case Draining => ShortDrain(s, f);
        case Idle => ShortIdle(s, f);
        case ReadLevel(_) => ShortReadLevel(s, f);
        case _ => ShortPumpLevels(s, f);
      }
  }

  lemma {:induction false} ShortNeverLoses(s: State, f: Fifos, events: seq<Event>)
    requires Short(s, f)
    ensures !Run(s, f, events).lost
    decreases |events|
  {
    if events != [] {
      ShortKept(s, f, events[0]);
      ShortNeverLoses(Step(s, f, events[0]), f, events[1..]);
    }
  }

  // one reply too many, with no command before the read

  /** Until the first reply is taken, only one call of the pump can have sent anything. */
  predicate Untaken(s: State, f: Fifos) {
    && s.todo != [] && s.todo[0].read && s.todo[0].len == f.rxDepth + 1 - Asked(s)
    && s.owed != [] && s.owed[0] == f.rxDepth + 1
    && multiset(s.tx)[true] == |s.tx|
    && match s.phase
       case Idle => Asked(s) == 0 || Asked(s) == f.txDepth
       case ReadLevel(_) => Asked(s) == f.txDepth && s.rx >= 1
       case Popping(valid, _) => Asked(s) == f.txDepth && valid >= 1 && s.rx >= 1
       case TxLevel => Asked(s) == 0
       case RxLevel(txLimit) => Asked(s) == 0 && txLimit == f.txDepth
       case Pushing(txLimit, rxLimit) => Asked(s) + txLimit == f.txDepth && rxLimit == f.rxDepth - Asked(s)
       case Draining => false
  }

  predicate Barely(s: State, f: Fifos) {
    && f.txDepth <= f.rxDepth && !s.lost && Sending(s) && Asked(s) <= f.rxDepth
    && Sum(s.owed) == Left(s) + Asked(s) <= f.rxDepth + 1
    && (Sum(s.owed) == f.rxDepth + 1 ==> Untaken(s, f))
  }

  lemma BarelyBus(s: State, f: Fifos)
    requires Barely(s, f)
    ensures Barely(AfterBus(s, f), f)
  {
    BusAsks(s, f);
    if s.tx != [] {
      assert s.tx == [s.tx[0]] + s.tx[1..];
      assert multiset(s.tx)[true] == |s.tx| ==> s.tx[0] by {
        if !s.tx[0] {
          CountBelow(s.tx[1..]);
        }
      }
    }
  }

  lemma {:induction false} CountBelow(tx: seq<bool>)
    ensures multiset(tx)[true] <= |tx|
  {
    if tx != [] {
      assert tx == [tx[0]] + tx[1..];
      CountBelow(tx[1..]);
    }
  }

  lemma BarelyLevels(s: State, f: Fifos)
    requires Barely(s, f) && (s.phase.Idle? || s.phase.ReadLevel? || s.phase.TxLevel? || s.phase.RxLevel?)
    ensures Barely(AfterDriver(s, f), f)
  {
  }

  lemma BarelyPop(s: State, f: Fifos, valid: nat, txEmpty: bool)
    requires Barely(s, f) && s.phase == Popping(valid, txEmpty)
    ensures Barely(Pop(s, valid, txEmpty), f)
  {
    PopAsks(s, valid, txEmpty);
    if s.owed != [] && s.owed[0] >= 1 {
      SumTaken(s.owed);
    }
  }

  lemma BarelyPush(s: State, f: Fifos, txLimit: nat, rxLimit: nat)
    requires Barely(s, f) && s.phase == Pushing(txLimit, rxLimit)
    ensures Barely(Push(s, txLimit, rxLimit), f)
  {
    PushAsks(s, txLimit, rxLimit);
  }

  lemma BarelyKept(s: State, f: Fifos, e: Event)
    requires Barely(s, f)
    ensures Barely(Step(s, f, e), f)
  {
    match e
    case Bus => BarelyBus(s, f);
    case Driver =>
      match s.phase {
        case Popping(valid, txEmpty) => BarelyPop(s, f, valid, txEmpty);
        case Pushing(txLimit, rxLimit) => BarelyPush(s, f, txLimit, rxLimit);
        case Draining => DrainAsks(s);
        case _ => BarelyLevels(s, f);
      }
  }

  lemma {:induction false} BarelyNeverLoses(s: State, f: Fifos, events: seq<Event>)
    requires Barely(s, f)
    ensures !Run(s, f, events).lost
    decreases |events|
  {
    if events != [] {
      BarelyKept(s, f, events[0]);
      BarelyNeverLoses(Step(s, f, events[0]), f, events[1..]);
    }
  }

  // ----- runs that lose a reply

  lemma {:induction false} RunJoins(s: State, f: Fifos, a: seq<Event>, b: seq<Event>)
    ensures Run(s, f, a + b) == Run(Run(s, f, a), f, b)
    decreases |a|
  {
    if a == [] {
      assert a + b == b;
    } else {
      RunJoins(Step(s, f, a[0]), f, a[1..], b);
      assert (a + b)[1..] == a[1..] + b;
    }
  }

  /** `t` can be reached from `s`. */
  ghost predicate Reaches(s: State, f: Fifos, t: State) {
    exists events :: Run(s, f, events) == t
  }

  lemma ReachStep(s: State, f: Fifos, e: Event)
    ensures Reaches(s, f, Step(s, f, e))
  {
    assert Run(Step(s, f, e), f, [e][1..]) == Step(s, f, e);
    assert Run(s, f, [e]) == Step(s, f, e);
  }

  lemma ReachJoin(s: State, f: Fifos, t: State, u: State)
    requires Reaches(s, f, t) && Reaches(t, f, u)
    ensures Reaches(s, f, u)
  {
    var a :| Run(s, f, a) == t;
    var b :| Run(t, f, b) == u;
    RunJoins(s, f, a, b);
    assert Run(s, f, a + b) == u;
  }

  lemma ReachSelf(s: State, f: Fifos)
    ensures Reaches(s, f, s)
  {
    assert Run(s, f, []) == s;
  }

  lemma LosesLater(s: State, f: Fifos, t: State)
    requires Reaches(s, f, t) && CanLose(t, f)
    ensures CanLose(s, f)
  {
    var a :| Run(s, f, a) == t;
    var b :| Run(t, f, b).lost;
    RunJoins(s, f, a, b);
    assert Run(s, f, a + b).lost;
  }

  lemma LosesAfter(s: State, f: Fifos, e: Event)
    requires CanLose(Step(s, f, e), f)
    ensures CanLose(s, f)
  {
    ReachStep(s, f, e);
    LosesLater(s, f, Step(s, f, e));
  }

  lemma LostIsLoss(s: State, f: Fifos)
    requires s.lost
    ensures CanLose(s, f)
  {
    assert Run(s, f, []).lost;
  }

  function Trues(k: nat): (r: seq<bool>)
    ensures |r| == k && forall i :: 0 <= i < k ==> r[i]
  {
    seq(k, _ => true)
  }

  lemma BusMovesOne(s: State, f: Fifos, n: nat)
    requires s.tx == Trues(n) && n > 0 && s.rx < f.rxDepth
    ensures AfterBus(s, f) == s.(tx := Trues(n - 1), rx := s.rx + 1)
  {
    assert Trues(n)[1..] == Trues(n - 1);
  }

  /** `k` requests are carried out. */
  lemma {:induction false} BusMoves(s: State, f: Fifos, n: nat, k: nat)
    requires s.tx == Trues(n) && k <= n && s.rx + k <= f.rxDepth
    ensures Reaches(s, f, s.(tx := Trues(n - k), rx := s.rx + k))
  {
    if k == 0 {
      ReachSelf(s, f);
    } else {
      var t := s.(tx := Trues(n - (k - 1)), rx := s.rx + (k - 1));
      BusMoves(s, f, n, k - 1);
      BusMovesOne(t, f, n - (k - 1));
      ReachStep(t, f, Bus);
      ReachJoin(s, f, t, s.(tx := Trues(n - k), rx := s.rx + k));
    }
  }

  /** More requests underway than there is room for. */
  lemma BusLoses(s: State, f: Fifos, n: nat)
    requires s.tx == Trues(n) && s.rx <= f.rxDepth < s.rx + n
    ensures CanLose(s, f)
  {
    var k := f.rxDepth - s.rx;
    BusMoves(s, f, n, k);
    var t := s.(tx := Trues(n - k), rx := f.rxDepth);
    assert t.tx[0];
    LostIsLoss(AfterBus(t, f), f);
    LosesAfter(t, f, Bus);
    LosesLater(s, f, t);
  }

  /** The pump may send as many requests as are one too many. */
  lemma {:induction false} PushLoses(s: State, f: Fifos, n: nat, txLimit: nat, rxLimit: nat)
    requires s.phase == Pushing(txLimit, rxLimit) && s.todo != [] && s.todo[0].read && s.tx == Trues(n)
    requires s.rx + n <= f.rxDepth
    requires var k := f.rxDepth + 1 - s.rx - n; k <= txLimit && k <= rxLimit && k <= s.todo[0].len
    ensures CanLose(s, f)
    decreases s.todo[0].len
  {
    var t := AfterDriver(s, f);
    if s.todo[0].len == 1 {
      BusMoves(t, f, n, n);
      var u := t.(tx := [], rx := s.rx + n);
      var v := AfterDriver(u, f);
      assert v.tx == Trues(1) && v.rx == f.rxDepth;
      BusLoses(v, f, 1);
      LosesAfter(u, f, Driver);
      LosesLater(t, f, u);
    } else if s.rx + n == f.rxDepth {
      BusLoses(t, f, n + 1);
    } else {
      PushLoses(t, f, n + 1, txLimit - 1, rxLimit - 1);
    }
    LosesAfter(s, f, Driver);
  }

  function Sent(msgs: seq<Msg>, k: nat): (r: seq<Msg>)
    requires msgs != [] && msgs[0].len > k
  {
    [Msg(msgs[0].read, msgs[0].len - k)] + msgs[1..]
  }

  function Pushed(s: State, txLimit: nat, rxLimit: nat, k: nat): State
    requires s.todo != [] && k < s.todo[0].len && k <= txLimit && k <= rxLimit
  {
    s.(phase := Pushing(txLimit - k, rxLimit - k), todo := Sent(s.todo, k), tx := s.tx + Trues(k))
  }

  /** The pump sends `k` requests of a longer read. */
  lemma {:induction false} PushMoves(s: State, f: Fifos, txLimit: nat, rxLimit: nat, k: nat)
    requires s.phase == Pushing(txLimit, rxLimit) && s.todo != [] && s.todo[0].read
    requires k < s.todo[0].len && k <= txLimit && k <= rxLimit
    ensures Reaches(s, f, Pushed(s, txLimit, rxLimit, k))
  {
    if k == 0 {
      assert Pushed(s, txLimit, rxLimit, 0) == s;
      ReachSelf(s, f);
    } else {
      PushMoves(s, f, txLimit, rxLimit, k - 1);
      var t := Pushed(s, txLimit, rxLimit, k - 1);
      PushOne(s, txLimit, rxLimit, k);
      ReachStep(t, f, Driver);
      ReachJoin(s, f, t, Pushed(s, txLimit, rxLimit, k));
    }
  }

  lemma PushOne(s: State, txLimit: nat, rxLimit: nat, k: nat)
    requires s.todo != [] && s.todo[0].read && 0 < k < s.todo[0].len && k <= txLimit && k <= rxLimit
    ensures Push(Pushed(s, txLimit, rxLimit, k - 1), txLimit - (k - 1), rxLimit - (k - 1)) ==
            Pushed(s, txLimit, rxLimit, k)
  {
    var t := Pushed(s, txLimit, rxLimit, k - 1);
    assert OneSent(t.todo) == Sent(s.todo, k);
    assert Trues(k - 1) + [true] == Trues(k);
    assert t.tx + [true] == s.tx + Trues(k);
  }

  // losing runs of one read message

  /** With as many commands underway as still let TX_EMPTY be raised, no reply
      waiting and enough to come: replies arrive between the read and the pump. */
  lemma FullPumpLoses(s: State, f: Fifos)
    requires f.txDepth <= f.rxDepth && 2 * f.txDepth >= f.rxDepth + 3
    requires s.phase == TxLevel && s.tx == Trues(f.txDepth - 1) && s.rx == 0
    requires s.todo != [] && s.todo[0].read && s.todo[0].len >= f.rxDepth + 2 - f.txDepth
    ensures CanLose(s, f)
  {
    var n, a := f.txDepth - 1, f.rxDepth + 1 - f.txDepth;
    BusMoves(s, f, n, a);
    var t := s.(tx := Trues(n - a), rx := a);
    var u := AfterDriver(AfterDriver(t, f), f);
    PushLoses(u, f, n - a, 1 + a, f.rxDepth - a);
    LosesAfter(AfterDriver(t, f), f, Driver);
    LosesAfter(t, f, Driver);
    LosesLater(s, f, t);
  }

  /** A TX FIFO deeper than the RX FIFO: the pump is called again before any reply. */
  lemma DeepLoses(s: State, f: Fifos)
    requires f.txDepth > f.rxDepth >= 1 && s.phase == TxLevel && s.tx == [] && s.rx == 0
    requires s.todo != [] && s.todo[0].read && s.todo[0].len > f.rxDepth
    ensures CanLose(s, f)
  {
    var t := AfterDriver(AfterDriver(s, f), f);
    PushMoves(t, f, f.txDepth, f.rxDepth, f.rxDepth);
    var u := Pushed(t, f.txDepth, f.rxDepth, f.rxDepth);
    assert u.tx == Trues(f.rxDepth);
    Again(u, f);
    LosesLater(t, f, u);
    LosesAfter(AfterDriver(s, f), f, Driver);
    LosesAfter(s, f, Driver);
  }

  lemma Again(u: State, f: Fifos)
    requires f.txDepth > f.rxDepth >= 1 && u.phase == Pushing(f.txDepth - f.rxDepth, 0)
    requires u.tx == Trues(f.rxDepth) && u.rx == 0 && u.todo != [] && u.todo[0].read
    ensures CanLose(u, f)
  {
    var a := AfterDriver(u, f);
    var b := AfterDriver(a, f);
    var c := AfterDriver(b, f);
    var d := AfterDriver(c, f);
    assert d.phase == Pushing(f.txDepth - f.rxDepth, f.rxDepth);
    PushLoses(d, f, f.rxDepth, f.txDepth - f.rxDepth, f.rxDepth);
    LosesAfter(c, f, Driver);
    LosesAfter(b, f, Driver);
    LosesAfter(a, f, Driver);
    LosesAfter(u, f, Driver);
  }

  /** No command before the read: one reply has to be taken before the pump is
      called on a TX FIFO with just one place left. */
  lemma ReadFirstLoses(s: State, f: Fifos)
    requires f.txDepth <= f.rxDepth && 2 * f.txDepth >= f.rxDepth + 3
    requires s.phase == TxLevel && s.tx == [] && s.rx == 0
    requires s.todo != [] && s.todo[0].read && s.todo[0].len >= f.rxDepth + 2
    requires s.owed != [] && s.owed[0] >= 2
    ensures CanLose(s, f)
  {
    var t := AfterDriver(AfterDriver(s, f), f);
    PushMoves(t, f, f.txDepth, f.rxDepth, f.txDepth);
    var u := Pushed(t, f.txDepth, f.rxDepth, f.txDepth);
    assert u.tx == Trues(f.txDepth);
    ReplyTaken(u, f);
    LosesLater(t, f, u);
    LosesAfter(AfterDriver(s, f), f, Driver);
    LosesAfter(s, f, Driver);
  }

  lemma ReplyTaken(u: State, f: Fifos)
    requires f.txDepth <= f.rxDepth && 2 * f.txDepth >= f.rxDepth + 3
    requires u.phase == Pushing(0, f.rxDepth - f.txDepth) && u.tx == Trues(f.txDepth) && u.rx == 0
    requires u.todo != [] && u.todo[0].read && u.todo[0].len >= f.rxDepth + 2 - f.txDepth
    requires u.owed != [] && u.owed[0] >= 2
    ensures CanLose(u, f)
  {
    var idle := AfterDriver(u, f);
    BusMoves(idle, f, f.txDepth, 1);
    var a := idle.(tx := Trues(f.txDepth - 1), rx := 1);
    var b := AfterDriver(a, f);
    var c := AfterDriver(b, f);
    var d := AfterDriver(c, f);
    var e := AfterDriver(d, f);
    assert b.phase == ReadLevel(true) && c.phase == Popping(1, true) && d.phase == Popping(0, true);
    FullPumpLoses(e, f);
    LosesAfter(d, f, Driver);
    LosesAfter(c, f, Driver);
    LosesAfter(b, f, Driver);
    LosesAfter(a, f, Driver);
    LosesLater(idle, f, a);
    LosesAfter(u, f, Driver);
  }

  /** After a write, its last command is the one that leaves the place. */
  lemma WriteFirstLoses(s: State, f: Fifos)
    requires f.txDepth <= f.rxDepth && 2 * f.txDepth >= f.rxDepth + 3
    requires s.phase == TxLevel && s.tx == [false] && s.rx == 0
    requires s.todo != [] && s.todo[0].read && s.todo[0].len > f.rxDepth
    ensures CanLose(s, f)
  {
    var t := AfterDriver(AfterDriver(s, f), f);
    assert t.phase == Pushing(f.txDepth - 1, f.rxDepth);
    PushMoves(t, f, f.txDepth - 1, f.rxDepth, f.txDepth - 1);
    var u := Pushed(t, f.txDepth - 1, f.rxDepth, f.txDepth - 1);
    var idle := AfterDriver(u, f);
    var a := AfterBus(idle, f);
    assert ([false] + Trues(f.txDepth - 1))[1..] == Trues(f.txDepth - 1);
    FullPumpLoses(AfterDriver(a, f), f);
    LosesAfter(a, f, Driver);
    LosesAfter(idle, f, Bus);
    LosesAfter(u, f, Driver);
    LosesLater(t, f, u);
    LosesAfter(AfterDriver(s, f), f, Driver);
    LosesAfter(s, f, Driver);
  }

  /** A write message gets out, its last command still in the TX FIFO. */
  lemma {:induction false} WriteOut(s: State, f: Fifos, txLimit: nat, rxLimit: nat)
    requires f.txDepth >= 1 && f.rxDepth >= 1 && s.phase == Pushing(txLimit, rxLimit) && rxLimit >= 1
    requires s.todo != [] && !s.todo[0].read && s.tx == [] && s.rx == 0
    ensures Reaches(s, f, s.(phase := TxLevel, todo := s.todo[1..], tx := [false]))
    decreases s.todo[0].len, if txLimit == 0 then 1 else 0
  {
    var end := s.(phase := TxLevel, todo := s.todo[1..], tx := [false]);
    var t := AfterDriver(s, f);
    ReachStep(s, f, Driver);
    if txLimit == 0 {
      var a := AfterDriver(t, f);
      var b := AfterDriver(a, f);
      var c := AfterDriver(b, f);
      ReachStep(t, f, Driver);
      ReachStep(a, f, Driver);
      ReachStep(b, f, Driver);
      WriteOut(c, f, f.txDepth, f.rxDepth);
      ReachJoin(b, f, c, end);
      ReachJoin(a, f, b, end);
      ReachJoin(t, f, a, end);
    } else if s.todo[0].len == 1 {
      ReachStep(t, f, Driver);
    } else {
      var u := AfterBus(t, f);
      ReachStep(t, f, Bus);
      WriteOut(u, f, txLimit - 1, rxLimit);
      ReachJoin(t, f, u, end);
    }
    ReachJoin(s, f, t, end);
  }

  /** All writes before the read get out. */
  lemma {:induction false} WritesOut(s: State, f: Fifos, pre: seq<Msg>, rest: seq<Msg>)
    requires f.txDepth >= 1 && f.rxDepth >= 1 && s.phase == TxLevel && s.tx == [] && s.rx == 0
    requires s.todo == pre + rest && pre != [] && Writes(pre)
    ensures Reaches(s, f, s.(todo := rest, tx := [false]))
    decreases |pre|
  {
    var t := AfterDriver(AfterDriver(s, f), f);
    ReachStep(s, f, Driver);
    ReachStep(AfterDriver(s, f), f, Driver);
    ReachJoin(s, f, AfterDriver(s, f), t);
    WriteOut(t, f, f.txDepth, f.rxDepth);
    var u := s.(todo := s.todo[1..], tx := [false]);
    ReachJoin(s, f, t, u);
    assert s.todo[1..] == pre[1..] + rest;
    if |pre| == 1 {
      assert pre[1..] + rest == rest;
    } else {
      var v := AfterBus(u, f);
      ReachStep(u, f, Bus);
      WritesOut(v, f, pre[1..], rest);
      ReachJoin(u, f, v, s.(todo := rest, tx := [false]));
      ReachJoin(s, f, u, s.(todo := rest, tx := [false]));
    }
  }

  // ----- the results

  /** A read of `n` bytes, with or without writes before and after it. */
  function OneReadOf(pre: seq<Msg>, n: Positive, post: seq<Msg>): seq<Msg> {
    pre + [Msg(true, n)] + post
  }

  lemma {:induction false} NoReads(msgs: seq<Msg>)
    requires Writes(msgs)
    ensures Reads(msgs) == []
  {
    if msgs != [] {
      NoReads(msgs[1..]);
    }
  }

  lemma {:induction false} OneReadReads(pre: seq<Msg>, n: Positive, post: seq<Msg>)
    requires Writes(pre) && Writes(post)
    ensures Reads(OneReadOf(pre, n, post)) == [n]
    decreases |pre|
  {
    var msgs := OneReadOf(pre, n, post);
    if pre == [] {
      NoReads(post);
      assert msgs[1..] == post;
    } else {
      OneReadReads(pre[1..], n, post);
      assert msgs[1..] == OneReadOf(pre[1..], n, post);
    }
  }

  /** A read of `n` bytes that may lose a reply: it does not fit the RX FIFO, and the
      TX FIFO is deep enough for the pump to ask for more than there will be room for. */
  predicate Risky(n: nat, f: Fifos, writeFirst: bool) {
    && n > f.rxDepth
    && (|| f.txDepth > f.rxDepth
        || (2 * f.txDepth >= f.rxDepth + 3 && (writeFirst || n >= f.rxDepth + 2)))
  }

  lemma OneReadSafe(pre: seq<Msg>, n: Positive, post: seq<Msg>, f: Fifos)
    requires f.txDepth >= 1 && f.rxDepth >= 1 && Writes(pre) && Writes(post)
    requires !Risky(n, f, pre != [])
    ensures !CanLose(Start(OneReadOf(pre, n, post)), f)
  {
    var s := Start(OneReadOf(pre, n, post));
    OneReadReads(pre, n, post);
    assert [n][1..] == [] && Sum([n]) == n;
    forall events
      ensures !Run(s, f, events).lost
    {
      if n <= f.rxDepth {
        FewNeverLose(s, f, events);
      } else if 2 * f.txDepth <= f.rxDepth + 2 {
        ShortNeverLoses(s, f, events);
      } else {
        BarelyNeverLoses(s, f, events);
      }
    }
  }

  lemma OneReadRisky(pre: seq<Msg>, n: Positive, post: seq<Msg>, f: Fifos)
    requires f.txDepth >= 1 && f.rxDepth >= 1 && Writes(pre) && Writes(post)
    requires Risky(n, f, pre != [])
    ensures CanLose(Start(OneReadOf(pre, n, post)), f)
  {
    var s := Start(OneReadOf(pre, n, post));
    OneReadReads(pre, n, post);
    var t := AfterDriver(s, f);
    var rest := [Msg(true, n)] + post;
    if pre == [] {
      assert s.todo == rest;
      if f.txDepth > f.rxDepth {
        DeepLoses(t, f);
      } else {
        ReadFirstLoses(t, f);
      }
    } else {
      assert s.todo == pre + rest;
      WritesOut(t, f, pre, rest);
      var u := t.(todo := rest, tx := [false]);
      if f.txDepth > f.rxDepth {
        DeepLoses(AfterBus(u, f), f);
        LosesAfter(u, f, Bus);
      } else {
        WriteFirstLoses(u, f);
      }
      LosesLater(t, f, u);
    }
    LosesAfter(s, f, Driver);
  }

  /** Some order of handler and bus loses a reply to a transfer with one read
      message if and only if the read is risky. */
  lemma OneReadExact(pre: seq<Msg>, n: Positive, post: seq<Msg>, f: Fifos)
    requires f.txDepth >= 1 && f.rxDepth >= 1 && Writes(pre) && Writes(post)
    ensures CanLose(Start(OneReadOf(pre, n, post)), f) <==> Risky(n, f, pre != [])
  {
    if Risky(n, f, pre != []) {
      OneReadRisky(pre, n, post, f);
    } else {
      OneReadSafe(pre, n, post, f);
    }
  }

  function Ones(n: nat): (r: seq<Msg>)
    ensures |r| == n && forall i :: 0 <= i < n ==> r[i] == Msg(true, 1)
  {
    seq(n, _ => Msg(true, 1))
  }

  lemma {:induction false} OnesReads(n: nat)
    ensures Sum(Reads(Ones(n))) == n
  {
    if n > 0 {
      OnesReads(n - 1);
      assert Ones(n)[1..] == Ones(n - 1);
      SumOf(Ones(n));
    }
  }

  /** The pump looks at the RX level anew for each message, but never at the request
      it has just sent. */
  lemma {:induction false} OnesLose(s: State, f: Fifos, q: nat)
    requires f.txDepth >= 2 && s.phase == TxLevel && s.tx == [true] && s.todo == Ones(q)
    requires s.rx <= f.rxDepth <= s.rx + q
    ensures CanLose(s, f)
    decreases f.rxDepth - s.rx
  {
    if s.rx == f.rxDepth {
      assert [true] == Trues(1);
      BusLoses(s, f, 1);
    } else {
      var a := AfterDriver(s, f);
      var b := AfterDriver(a, f);
      var c := AfterDriver(b, f);
      var d := AfterBus(c, f);
      var e := AfterDriver(d, f);
      assert c.phase == Draining && d.tx == [] && d.rx == s.rx + 1;
      assert Ones(q)[1..] == Ones(q - 1);
      OnesLose(e, f, q - 1);
      LosesAfter(d, f, Driver);
      LosesAfter(c, f, Bus);
      LosesAfter(b, f, Driver);
      LosesAfter(a, f, Driver);
      LosesAfter(s, f, Driver);
    }
  }

  lemma SplitLoses(n: nat, f: Fifos)
    requires f.txDepth >= 2 && n > f.rxDepth >= 1
    ensures CanLose(Start(Ones(n)), f)
  {
    var s := Start(Ones(n));
    var a := AfterDriver(s, f);
    var b := AfterDriver(a, f);
    var c := AfterDriver(b, f);
    var d := AfterDriver(c, f);
    var e := AfterDriver(d, f);
    assert c.phase == Pushing(f.txDepth, f.rxDepth) && d.phase == Draining;
    assert Ones(n)[1..] == Ones(n - 1);
    OnesLose(e, f, n - 1);
    LosesAfter(d, f, Driver);
    LosesAfter(c, f, Driver);
    LosesAfter(b, f, Driver);
    LosesAfter(a, f, Driver);
    LosesAfter(s, f, Driver);
  }

  /** However the bytes to be read are split into messages, and whatever is written
      in between, no order of handler and bus loses a reply, if and only if they fit
      the RX FIFO or the TX FIFO holds one command. */
  lemma AnySplitExact(n: nat, f: Fifos)
    requires f.txDepth >= 1 && f.rxDepth >= 1
    ensures (forall msgs :: Sum(Reads(msgs)) == n ==> !CanLose(Start(msgs), f))
            <==> n <= f.rxDepth || f.txDepth <= 1
  {
    if n <= f.rxDepth || f.txDepth <= 1 {
      forall msgs, events | Sum(Reads(msgs)) == n
        ensures !Run(Start(msgs), f, events).lost
      {
        if n <= f.rxDepth {
          FewNeverLose(Start(msgs), f, events);
        } else {
          SingleNeverLoses(Start(msgs), f, events);
        }
      }
    } else {
      OnesReads(n);
      SplitLoses(n, f);
    }
  }
}
