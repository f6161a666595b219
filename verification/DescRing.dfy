/** The circular descriptor allocator of drivers/fh_dma.c (get_desc, put_desc).
    As written, get_desc books descriptors only on its wrapping path; `Booking`
    tells that code from the accounting its fields are made for. */
module DescRing {
  import opened Common
  import opened Words

  datatype Booking = AsWritten | Intended

  /** The allocator fields of struct dma_channel. */
  datatype Ring = Ring(total: nat, freeIndex: nat, usedIndex: nat, left: nat)
  {
    predicate Valid() {
      freeIndex < total && usedIndex < total && left <= total
    }
  }

  datatype Grant = Grant(index: nat, actual: nat)

  /** get_desc for `n` descriptors: contiguous ones, from the start of the array
      if the rest of it is too short. */
  function Got(r: Ring, n: nat, b: Booking): Option<Grant>
    requires r.Valid()
  {
    var toEnd := r.total - r.freeIndex;
    if r.left < n then None
    else if n <= toEnd then Some(Grant(r.freeIndex, if b.Intended? then n else 0))
    else if r.left - toEnd < n then None
    else Some(Grant(0, toEnd + n))
  }

  function AfterGet(r: Ring, g: Grant): (r': Ring)
    requires r.Valid() && g.actual <= r.left
    ensures r'.Valid()
  {
    r.(freeIndex := (r.freeIndex + g.actual) % r.total, left := r.left - g.actual)
  }

  /** put_desc of a transfer that holds `actual` descriptors */
  function AfterPut(r: Ring, actual: nat): (r': Ring)
    requires r.Valid() && r.left + actual <= r.total
    ensures r'.Valid()
  {
    r.(usedIndex := (r.usedIndex + actual) % r.total, left := r.left + actual)
  }

  /** Neither unsigned subtraction of get_desc can wrap. */
  lemma GotFits(r: Ring, n: nat, b: Booking)
    requires r.Valid()
    ensures n <= r.left && n > r.total - r.freeIndex ==> r.left - (r.total - r.freeIndex) >= 0
    ensures Got(r, n, b).Some? ==> Got(r, n, b).value.actual <= r.left
  {
  }

  // ----- runs: blocks handed out, and put back oldest first

  /** A live block; `at` counts all descriptors booked before it. */
  datatype Block = Block(index: nat, len: nat, actual: nat, at: nat)

  datatype Session = Session(r: Ring, live: seq<Block>, booked: nat, returned: nat)

  datatype Event = Get(n: nat) | PutOldest

  function Step(x: Session, e: Event, b: Booking): (y: Session)
    requires x.r.Valid()
    ensures y.r.Valid() && y.r.total == x.r.total
  {
    match e
    case Get(n) =>
      var g := Got(x.r, n, b);
      if g.None? then x
      else Session(AfterGet(x.r, g.value), x.live + [Block(g.value.index, n, g.value.actual, x.booked)],
                   x.booked + g.value.actual, x.returned)
    case PutOldest =>
      if x.live == [] || x.r.left + x.live[0].actual > x.r.total then x
      else Session(AfterPut(x.r, x.live[0].actual), x.live[1..], x.booked, x.returned + x.live[0].actual)
  }

  function Run(x: Session, events: seq<Event>, b: Booking): (y: Session)
    requires x.r.Valid()
    ensures y.r.Valid() && y.r.total == x.r.total
  {
    if events == [] then x
    else Step(Run(x, events[..|events| - 1], b), events[|events| - 1], b)
  }

  function Start(total: nat): (x: Session)
    requires total > 0
    ensures x.r.Valid()
  {
    Session(Ring(total, 0, 0, total), [], 0, 0)
  }

  // ----- the intended accounting

  /** Where a block's cells lie on the unbounded line of all bookings. */
  ghost predicate Placed(b: Block, total: nat)
    requires total > 0
  {
    && b.len <= b.actual && b.index + b.len <= total
    && b.index == (b.at + b.actual - b.len) % total
  }

  ghost predicate Chained(live: seq<Block>, from: nat, to: nat) {
    if live == [] then from == to
    else live[0].at == from && Chained(live[1..], from + live[0].actual, to)
  }

  ghost predicate Inv(x: Session) {
    && x.r.Valid()
    && x.returned <= x.booked && x.booked - x.returned + x.r.left == x.r.total
    && x.r.freeIndex == x.booked % x.r.total
    && x.r.usedIndex == x.returned % x.r.total
    && Chained(x.live, x.returned, x.booked)
    && forall i :: 0 <= i < |x.live| ==> Placed(x.live[i], x.r.total)
  }

  function ActualSum(live: seq<Block>): nat {
    if live == [] then 0 else live[0].actual + ActualSum(live[1..])
  }

  lemma {:induction false} ChainedSum(live: seq<Block>, from: nat, to: nat)
    requires Chained(live, from, to)
    ensures from + ActualSum(live) == to
  {
    if live != [] {
      ChainedSum(live[1..], from + live[0].actual, to);
    }
  }

  lemma {:induction false} ChainedAppend(live: seq<Block>, from: nat, to: nat, b: Block)
    requires Chained(live, from, to) && b.at == to
    ensures Chained(live + [b], from, to + b.actual)
  {
    if live == [] {
      assert (live + [b])[1..] == [];
    } else {
      ChainedAppend(live[1..], from + live[0].actual, to, b);
      assert (live + [b])[1..] == live[1..] + [b];
    }
  }

  /** A chained block lies between the ends, after every earlier one. */
  lemma {:induction false} ChainedOrder(live: seq<Block>, from: nat, to: nat, i: nat, j: nat)
    requires Chained(live, from, to) && i < j < |live|
    ensures from <= live[i].at && live[i].at + live[i].actual <= live[j].at
    ensures live[j].at + live[j].actual <= to
  {
    ChainedBounds(live, from, to, j);
    if i > 0 {
      ChainedOrder(live[1..], from + live[0].actual, to, i - 1, j - 1);
    } else {
      ChainedBounds(live[1..], from + live[0].actual, to, j - 1);
    }
  }

  lemma {:induction false} ChainedBounds(live: seq<Block>, from: nat, to: nat, i: nat)
    requires Chained(live, from, to) && i < |live|
    ensures from <= live[i].at && live[i].at + live[i].actual <= to
  {
    if i > 0 {
      ChainedBounds(live[1..], from + live[0].actual, to, i - 1);
    } else {
      ChainedSum(live[1..], from + live[0].actual, to);
    }
  }

  lemma AddToRemainder(a: nat, d: nat, n: nat)
    requires n > 0
    ensures (a % n + d) % n == (a + d) % n
    ensures d == n - a % n ==> (a + d) % n == 0
  {
    var q, r := a / n, a % n;
    assert a == q * n + r;
    var q', r' := (r + d) / n, (r + d) % n;
    assert r + d == q' * n + r';
    assert (q + q') * n == q * n + q' * n;
    DivUnique(a + d, n, q + q', r');
    if d == n - r {
      assert (q + 1) * n == q * n + n;
      DivUnique(a + d, n, q + 1, 0);
    }
  }

  /** A cell of two stretches of the line cannot be less than a turn apart. */
  lemma CellApart(p: nat, q: nat, index: nat, index': nat, cell: nat, total: nat)
    requires total > 0 && index == p % total && index' == q % total && index <= cell && index' <= cell
    ensures !(p + (cell - index) < q + (cell - index') < p + (cell - index) + total)
  {
    var a, b := p + (cell - index), q + (cell - index');
    AddToRemainder(p, cell - index, total);
    AddToRemainder(q, cell - index', total);
    if a < b < a + total {
      RemaindersDiffer(a, b, total);
    }
  }

  /** Where a grant lies on the line. */
  lemma GrantPlaced(r: Ring, n: nat, at: nat)
    requires r.Valid() && r.freeIndex == at % r.total && Got(r, n, Intended).Some?
    ensures var g := Got(r, n, Intended).value;
            g.actual <= r.left && Placed(Block(g.index, n, g.actual, at), r.total)
  {
    AddToRemainder(at, r.total - r.freeIndex, r.total);
  }

  lemma GetKeeps(x: Session, n: nat)
    requires Inv(x)
    ensures Inv(Step(x, Get(n), Intended))
  {
    var g := Got(x.r, n, Intended);
    if g.Some? {
      var b := Block(g.value.index, n, g.value.actual, x.booked);
      AddToRemainder(x.booked, g.value.actual, x.r.total);
      GrantPlaced(x.r, n, x.booked);
      ChainedAppend(x.live, x.returned, x.booked, b);
    }
  }

  lemma PutKeeps(x: Session)
    requires Inv(x)
    ensures Inv(Step(x, PutOldest, Intended))
    ensures x.live != [] ==> Step(x, PutOldest, Intended).live == x.live[1..]
  {
    if x.live != [] {
      ChainedBounds(x.live, x.returned, x.booked, 0);
      AddToRemainder(x.returned, x.live[0].actual, x.r.total);
    }
  }

  lemma {:induction false} RunKeeps(x: Session, events: seq<Event>)
    requires Inv(x)
    ensures Inv(Run(x, events, Intended))
  {
    if events != [] {
      var before := events[..|events| - 1];
      RunKeeps(x, before);
      match events[|events| - 1]
      case Get(n) => GetKeeps(Run(x, before, Intended), n);
      case PutOldest => PutKeeps(Run(x, before, Intended));
    }
  }

  /** A request is granted exactly if, on the line of bookings, the free stretch has
      `n` places in a row that do not cross the end of the array. */
  lemma GotExact(r: Ring, n: nat, at: nat)
    requires r.Valid() && r.freeIndex == at % r.total
    ensures Got(r, n, Intended).Some? <==>
            exists p: nat :: at <= p && p + n <= at + r.left && Fitting(p, n, r.total)
  {
    if Got(r, n, Intended).Some? {
      GrantPlaced(r, n, at);
      var g := Got(r, n, Intended).value;
      assert Fitting(at + g.actual - n, n, r.total);
    } else {
      forall p: nat | at <= p && p + n <= at + r.left
        ensures !Fitting(p, n, r.total)
      {
        TurnOnce(at, p - at, r.total);
      }
    }
  }

  predicate Fitting(at: nat, n: nat, total: nat)
    requires total > 0
  {
    at % total + n <= total
  }

  lemma TurnOnce(at: nat, d: nat, total: nat)
    requires total > 0 && d <= total
    ensures (at + d) % total == at % total + d || (at + d) % total == at % total + d - total
  {
    AddToRemainder(at, d, total);
    var x := at % total + d;
    if x < total {
      DivUnique(x, total, 0, x);
    } else if x < 2 * total {
      DivUnique(x, total, 1, x - total);
    }
  }

  /** So even an idle allocator refuses: all descriptors are free, but neither those up
      to the end of the array nor those before the free index are enough. */
  lemma IdleRefusesExact(total: nat, index: nat, n: nat)
    requires index < total && n <= total
    ensures Got(Ring(total, index, index, total), n, Intended).None? <==> total - index < n && index < n
  {
  }

  predicate Holds(b: Block, cell: nat) {
    b.index <= cell < b.index + b.len
  }

  /** Two blocks share no cell if the second is booked after the first, and ends
      before a turn from the first cell that the first one holds. */
  lemma BlocksApart(a: Block, b: Block, total: nat, cell: nat)
    requires total > 0 && Placed(a, total) && Placed(b, total)
    requires a.at + a.actual <= b.at && b.at + b.actual <= a.at + a.actual - a.len + total
    ensures !(Holds(a, cell) && Holds(b, cell))
  {
    if Holds(a, cell) && Holds(b, cell) {
      CellApart(a.at + a.actual - a.len, b.at + b.actual - b.len, a.index, b.index, cell, total);
    }
  }

  /** Two live blocks share no descriptor. */
  lemma LiveDisjoint(x: Session, i: nat, j: nat, cell: nat)
    requires Inv(x) && i < j < |x.live|
    ensures !(Holds(x.live[i], cell) && Holds(x.live[j], cell))
  {
    ChainedOrder(x.live, x.returned, x.booked, i, j);
    BlocksApart(x.live[i], x.live[j], x.r.total, cell);
  }

  /** With the intended accounting and blocks put back oldest first, every
      reachable state accounts for every descriptor, and the live blocks are
      contiguous, inside the array and pairwise disjoint. */
  lemma AllocatorIsSound(total: nat, events: seq<Event>)
    requires total > 0
    ensures var x := Run(Start(total), events, Intended);
            && x.r.left + ActualSum(x.live) == total
            && x.r.freeIndex == (x.r.usedIndex + ActualSum(x.live)) % total
            && (forall i :: 0 <= i < |x.live| ==> x.live[i].index + x.live[i].len <= total)
            && (forall i, j, cell: nat :: 0 <= i < j < |x.live| ==>
                  !(Holds(x.live[i], cell) && Holds(x.live[j], cell)))
  {
    RunKeeps(Start(total), events);
    var x := Run(Start(total), events, Intended);
    ChainedSum(x.live, x.returned, x.booked);
    AddToRemainder(x.returned, ActualSum(x.live), total);
    forall i | 0 <= i < |x.live|
      ensures x.live[i].index + x.live[i].len <= total
    {
      assert Placed(x.live[i], total);
    }
    forall i, j, cell: nat | 0 <= i < j < |x.live|
      ensures !(Holds(x.live[i], cell) && Holds(x.live[j], cell))
    {
      LiveDisjoint(x, i, j, cell);
    }
  }

  /** The allocator after requests for `ns` descriptors, one behind the other. */
  function Gets(r: Ring, ns: seq<nat>): (r': Ring)
    requires r.Valid()
    ensures r'.Valid() && r'.total == r.total
  {
    if ns == [] then r else Asked(Gets(r, ns[..|ns| - 1]), ns[|ns| - 1])
  }

  /** The allocator after one request, granted or not. */
  function Asked(r: Ring, n: nat): (r': Ring)
    requires r.Valid()
    ensures r'.Valid() && r'.total == r.total
  {
    var g := Got(r, n, Intended);
    if g.None? then r else AfterGet(r, g.value)
  }

  /** The last of these requests is granted descriptors that block `b` holds. */
  ghost predicate HandsOut(r: Ring, ns: seq<nat>, b: Block)
    requires r.Valid()
  {
    && ns != []
    && var g := Got(Gets(r, ns[..|ns| - 1]), ns[|ns| - 1], Intended);
    && g.Some?
    && exists cell: nat :: Holds(b, cell) && g.value.index <= cell < g.value.index + ns[|ns| - 1]
  }

  function Ones(m: nat): (ns: seq<nat>)
    ensures |ns| == m
  {
    seq(m, i => 1)
  }

  lemma GetsNext(r: Ring, ns: seq<nat>, n: nat)
    requires r.Valid()
    ensures Gets(r, ns + [n]) == Asked(Gets(r, ns), n)
  {
    assert (ns + [n])[..|ns|] == ns;
  }

  lemma OneTaken(r: Ring)
    requires r.Valid() && 0 < r.left
    ensures Got(r, 1, Intended) == Some(Grant(r.freeIndex, 1))
    ensures Asked(r, 1) == r.(freeIndex := (r.freeIndex + 1) % r.total, left := r.left - 1)
  {
  }

  lemma CanHandOut(r: Ring, ns: seq<nat>, b: Block)
    requires r.Valid() && b.len > 0 && Got(Gets(r, ns), 1, Intended) == Some(Grant(b.index, 1))
    ensures HandsOut(r, ns + [1], b)
  {
    assert (ns + [1])[..|ns|] == ns;
    assert Holds(b, b.index);
  }

  /** Requests for one descriptor each move one place along the line of bookings. */
  lemma {:induction false} OnesTaken(r: Ring, m: nat, at: nat)
    requires r.Valid() && m <= r.left && r.freeIndex == at % r.total
    ensures Gets(r, Ones(m)).left == r.left - m && Gets(r, Ones(m)).freeIndex == (at + m) % r.total
  {
    if m == 0 {
      assert Ones(0) == [];
      assert Gets(r, Ones(0)) == r;
    } else {
      OnesTaken(r, m - 1, at);
      OneMoreTaken(r, m, at);
    }
  }

  lemma OneMoreTaken(r: Ring, m: nat, at: nat)
    requires r.Valid() && 0 < m <= r.left && r.freeIndex == at % r.total
    requires Gets(r, Ones(m - 1)).left == r.left - (m - 1) && Gets(r, Ones(m - 1)).freeIndex == (at + (m - 1)) % r.total
    ensures Gets(r, Ones(m)).left == r.left - m && Gets(r, Ones(m)).freeIndex == (at + m) % r.total
  {
    GetsNext(r, Ones(m - 1), 1);
    assert Ones(m) == Ones(m - 1) + [1];
    OneTaken(Gets(r, Ones(m - 1)));
    OneFurther(at, m, r.total);
  }

  lemma OneFurther(a: nat, m: nat, n: nat)
    requires n > 0 && m > 0
    ensures ((a + (m - 1)) % n + 1) % n == (a + m) % n
  {
    AddToRemainder(a + (m - 1), 1, n);
  }

  lemma AskedMoves(r: Ring, n: nat, at: nat) returns (at': nat)
    requires r.Valid() && r.freeIndex == at % r.total
    ensures at <= at' && Asked(r, n).freeIndex == at' % r.total && at' + Asked(r, n).left == at + r.left
  {
    var g := Got(r, n, Intended);
    at' := if g.Some? then at + g.value.actual else at;
    if g.Some? {
      AddToRemainder(at, g.value.actual, r.total);
    }
  }

  /** Requests move along the line of bookings; none passes its end. */
  lemma {:induction false} GetsMove(r: Ring, ns: seq<nat>, at: nat) returns (at': nat)
    requires r.Valid() && r.freeIndex == at % r.total
    ensures at <= at' && Gets(r, ns).freeIndex == at' % r.total && at' + Gets(r, ns).left == at + r.left
  {
    at' := at;
    if ns != [] {
      at' := GetsMove(r, ns[..|ns| - 1], at);
      at' := AskedMoves(Gets(r, ns[..|ns| - 1]), ns[|ns| - 1], at');
    }
  }

  /** Block `i` put back before the oldest one: no later request reaches a cell of the
      oldest block, unless more was put back than that block skipped. */
  lemma YoungerFirstApart(x: Session, i: nat, ns: seq<nat>)
    requires Inv(x) && 0 < i < |x.live| && x.r.left + x.live[i].actual <= x.r.total
    requires x.live[0].actual - x.live[0].len >= x.live[i].actual
    ensures !HandsOut(AfterPut(x.r, x.live[i].actual), ns, x.live[0])
  {
    var r := AfterPut(x.r, x.live[i].actual);
    if HandsOut(r, ns, x.live[0]) {
      var n := ns[|ns| - 1];
      var s := Gets(r, ns[..|ns| - 1]);
      var at := GetsMove(r, ns[..|ns| - 1], x.booked);
      var g := Got(s, n, Intended).value;
      var cell: nat :| Holds(x.live[0], cell) && g.index <= cell < g.index + n;
      GrantPlaced(s, n, at);
      ChainedOrder(x.live, x.returned, x.booked, 0, i);
      BlocksApart(x.live[0], Block(g.index, n, g.actual, at), x.r.total, cell);
    }
  }

  /** More put back than the oldest block skipped: single requests come to its first
      descriptor while it is still live. */
  lemma YoungerFirstOverlaps(x: Session, i: nat)
    requires Inv(x) && 0 < i < |x.live|
    ensures x.r.left + x.live[i].actual <= x.r.total
    ensures var skipped := x.live[0].actual - x.live[0].len;
            var r := AfterPut(x.r, x.live[i].actual);
            skipped < x.live[i].actual ==>
              && 0 <= x.r.left + skipped < r.left
              && Got(Gets(r, Ones(x.r.left + skipped)), 1, Intended) == Some(Grant(x.live[0].index, 1))
  {
    ChainedBounds(x.live, x.returned, x.booked, i);
    assert Placed(x.live[0], x.r.total);
    var skipped := x.live[0].actual - x.live[0].len;
    var m := x.r.left + skipped;
    assert x.booked + m == x.returned + skipped + x.r.total;
    AddToRemainder(x.r.total, x.returned + skipped, x.r.total);
    assert x.r.total % x.r.total == 0 by {
      DivUnique(x.r.total, x.r.total, 1, 0);
    }
    if skipped < x.live[i].actual {
      var r := AfterPut(x.r, x.live[i].actual);
      OnesTaken(r, m, x.booked);
      OneTaken(Gets(r, Ones(m)));
    }
  }

  /** Putting back a block before the oldest one: later requests, of any sizes, can
      be granted a descriptor of the oldest block, which is still live, exactly when
      that block holds any and more was put back than it skipped. */
  lemma YoungerFirstExact(x: Session, i: nat)
    requires Inv(x) && 0 < i < |x.live|
    ensures x.r.left + x.live[i].actual <= x.r.total
    ensures (exists ns :: HandsOut(AfterPut(x.r, x.live[i].actual), ns, x.live[0])) <==>
            x.live[0].len > 0 && x.live[0].actual - x.live[0].len < x.live[i].actual
  {
    YoungerFirstOverlaps(x, i);
    var b, r := x.live[0], AfterPut(x.r, x.live[i].actual);
    var skipped := b.actual - b.len;
    if skipped >= x.live[i].actual {
      forall ns ensures !HandsOut(r, ns, b) {
        YoungerFirstApart(x, i, ns);
      }
    } else if b.len > 0 {
      CanHandOut(r, Ones(x.r.left + skipped), b);
    }
  }

  // ----- the code as written

  /** As written, no descriptor is ever booked: both counters keep their initial
      values and every block starts at descriptor 0. */
  lemma {:induction false} AsWrittenNeverBooks(total: nat, events: seq<Event>)
    requires total > 0
    ensures var x := Run(Start(total), events, AsWritten);
            && x.r == Ring(total, 0, 0, total)
            && (forall i :: 0 <= i < |x.live| ==> x.live[i].index == 0 && x.live[i].actual == 0)
  {
    if events != [] {
      var before := events[..|events| - 1];
      AsWrittenNeverBooks(total, before);
      var x := Run(Start(total), before, AsWritten);
      assert 0 % total == 0;
    }
  }

  /** So, as written, a new block is disjoint from the live ones exactly when it
      is empty or all of them are. */
  lemma AsWrittenDisjointExact(total: nat, events: seq<Event>, n: nat)
    requires 0 < total && n <= total
    ensures var x := Run(Start(total), events, AsWritten);
            && Got(x.r, n, AsWritten) == Some(Grant(0, 0))
            && ((forall i, cell: nat :: 0 <= i < |x.live| && cell < n ==> !Holds(x.live[i], cell))
                <==> n == 0 || forall i :: 0 <= i < |x.live| ==> x.live[i].len == 0)
  {
    AsWrittenNeverBooks(total, events);
    var x := Run(Start(total), events, AsWritten);
    if n > 0 && exists i :: 0 <= i < |x.live| && x.live[i].len > 0 {
      var i :| 0 <= i < |x.live| && x.live[i].len > 0;
      assert Holds(x.live[i], 0);
    }
  }

  // ----- the driver

  class Channel {
    const total: nat
    const booking: Booking
    var freeIndex: nat
    var usedIndex: nat
    var left: nat

    ghost function View(): Ring
      reads this
    {
      Ring(total, freeIndex, usedIndex, left)
    }

    constructor (total: nat, booking: Booking)
      requires total > 0
      ensures View() == Start(total).r && this.booking == booking
    {
      this.total, this.booking := total, booking;
      freeIndex, usedIndex, left := 0, 0, total;
    }

    method GetDesc(lliSize: nat) returns (grant: Option<Grant>)
      requires View().Valid()
      modifies this
      ensures grant == Got(old(View()), lliSize, booking)
      ensures View() == if grant.None? then old(View()) else AfterGet(old(View()), grant.value)
    {
      var actual, index := 0, freeIndex;
      var alignLeft := total - freeIndex;
      if left < lliSize {
        return None;
      }
      if lliSize > alignLeft {
        if left - alignLeft < lliSize {
          return None;
        }
        actual := alignLeft + lliSize;
        index := 0;
      } else if booking.Intended? {
        actual := lliSize;
      }
      freeIndex := (freeIndex + actual) % total;
      left := left - actual;
      grant := Some(Grant(index, actual));
    }

    method PutDesc(actual: nat)
      requires View().Valid() && left + actual <= total
      modifies this
      ensures View() == AfterPut(old(View()), actual)
    {
      usedIndex := (usedIndex + actual) % total;
      left := left + actual;
    }
  }
}
