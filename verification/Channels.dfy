/** Ownership of the DMA channels of drivers/fh_dma.c, one step per control call,
    interrupt or hardware completion, and what drivers/ssi.c relies on. */
module Channels {
  import opened Common

  datatype Status = Closed | Open | Idle | Busy

  /** `lock` is the semaphore's value, `mem` whether descriptor memory is allocated,
      `enabled` the channel's CH_EN bit, `ring` whether what runs is a cyclic list,
      `cyclic` its open_flag, `pending` its raised transfer-complete interrupt, and
      `bound` whether a client has a transfer that was prepared on the channel. */
  datatype Channel = Channel(
    lock: nat, status: Status, mem: bool, enabled: bool, ring: bool, cyclic: bool, pending: bool, bound: bool)

  /** A channel is locked, not closed, and has its memory, or none of the three. */
  predicate Sound(c: Channel) {
    c.lock <= 1 && (c.lock == 0 <==> c.status != Closed) && (c.lock == 0 <==> c.mem)
  }

  predicate Own(s: seq<Channel>) {
    forall i :: 0 <= i < |s| ==> Sound(s[i])
  }

  /** Only locked channels run. */
  predicate OnlyLockedRun(s: seq<Channel>) {
    forall i :: 0 <= i < |s| && s[i].enabled ==> s[i].lock == 0
  }

  /** `Stopped`: an assertion of the driver failed. */
  datatype Answer = Granted(channel: nat) | Refused | Stopped

  /** The first channel from `i` on whose lock can be taken, or the end. */
  function FreeFrom(s: seq<Channel>, i: nat): (r: nat)
    requires i <= |s|
    ensures i <= r <= |s|
    ensures forall k :: i <= k < r ==> s[k].lock == 0
    ensures r < |s| ==> s[r].lock > 0
    decreases |s| - i
  {
    if i == |s| || s[i].lock > 0 then i else FreeFrom(s, i + 1)
  }

  /** handle_request_channel: `want` is None for AUTO_FIND_CHANNEL, `mem` whether
      the allocation succeeds. */
  function AfterRequest(s: seq<Channel>, want: Option<nat>, mem: bool): (seq<Channel>, Answer) {
    var i := if want.Some? then want.value else FreeFrom(s, 0);
    if i >= |s| then (s, if want.Some? then Stopped else Refused)
    else if s[i].lock == 0 then (s, Refused)
    else if s[i].enabled then (s, Stopped)
    else if mem then (s[i := s[i].(lock := s[i].lock - 1, status := Open, mem := true)], Granted(i))
    else (s[i := s[i].(status := Closed, mem := false)], Refused)
  }

  function AfterRelease(s: seq<Channel>, n: nat): (seq<Channel>, bool) {
    if n >= |s| || s[n].status.Closed? then (s, false)
    else
      (s[n := s[n].(lock := s[n].lock + 1, status := Closed, mem := false, enabled := false, cyclic := false)], true)
  }

  /** What rt_fh81_dma_isr does to one channel. */
  function Served(c: Channel): Channel {
    if c.pending && !c.cyclic then c.(status := Idle, pending := false) else c
  }

  function AllServed(s: seq<Channel>): (r: seq<Channel>)
    ensures |r| == |s| && forall i :: 0 <= i < |s| ==> r[i] == Served(s[i])
  {
    seq(|s|, i requires 0 <= i < |s| => Served(s[i]))
  }

  /** handle_dma_close takes every lock in turn and closes its channel, then gives
      them all back; at one that is held it waits, the earlier ones taken and closed. */
  function AfterClose(s: seq<Channel>): (r: seq<Channel>)
    ensures |r| == |s|
    ensures forall i :: 0 <= i < |s| ==>
      r[i] == if FirstHeld(s, 0) == |s| then s[i].(status := Closed, enabled := false)
              else if i < FirstHeld(s, 0) then Taken(s[i]) else s[i]
  {
    var h := FirstHeld(s, 0);
    seq(|s|, i requires 0 <= i < |s| =>
      if h == |s| then s[i].(status := Closed, enabled := false) else if i < h then Taken(s[i]) else s[i])
  }

  function Taken(c: Channel): Channel {
    c.(lock := if c.lock > 0 then c.lock - 1 else 0, status := Closed, enabled := false)
  }

  function FirstHeld(s: seq<Channel>, i: nat): (r: nat)
    requires i <= |s|
    ensures i <= r <= |s|
    ensures forall k :: i <= k < r ==> s[k].lock > 0
    ensures r < |s| ==> s[r].lock == 0
    decreases |s| - i
  {
    if i == |s| || s[i].lock == 0 then i else FirstHeld(s, i + 1)
  }

  /** RT_DEVICE_CTRL_DMA_CYCLIC_PREPARE: open_flag is set first; a channel without
      memory stops at the assertion on its descriptors. */
  function AfterPrepare(s: seq<Channel>, n: nat): (seq<Channel>, bool) {
    if n >= |s| then (s, false)
    else if !s[n].mem then (s[n := s[n].(cyclic := true)], false)
    else (s[n := s[n].(cyclic := true, status := Busy, bound := true)], true)
  }

  /** CYCLIC_START, with a transfer once prepared: CH_EN is set unchecked. */
  function AfterCyclicStart(s: seq<Channel>, n: nat): seq<Channel> {
    if n < |s| && s[n].bound then s[n := s[n].(enabled := true, ring := true, pending := false)] else s
  }

  /** handle_single_transfer: stops unless the channel is locked and not closed. */
  function AfterSingle(s: seq<Channel>, n: nat): (seq<Channel>, bool) {
    if n >= |s| then (s, false)
    else if s[n].lock != 0 || s[n].status.Closed? then (s[n := s[n].(cyclic := false)], false)
    else
      (s[n := s[n].(cyclic := false, status := Busy, enabled := true, ring := false, pending := false, bound := true)],
       true)
  }

  /** Control calls, a one-shot transfer's completion in hardware, and the interrupt. */
  datatype Event =
    | Request(want: Option<nat>, mem: bool)
    | Release(n: nat)
    | Single(n: nat)
    | Prepare(n: nat)
    | CyclicStart(n: nat)
    | Resume(n: nat)
    | Pause(n: nat)
    | CyclicFree(n: nat)
    | Finish(n: nat)
    | Isr
    | Close

  function Step(s: seq<Channel>, e: Event): seq<Channel> {
    match e
    case Request(want, mem) => AfterRequest(s, want, mem).0
    case Release(n) => AfterRelease(s, n).0
    case Single(n) => AfterSingle(s, n).0
    case Prepare(n) => AfterPrepare(s, n).0
    case CyclicStart(n) => AfterCyclicStart(s, n)
    case Resume(n) => if n < |s| && s[n].bound then s[n := s[n].(enabled := true)] else s
    case Pause(n) => if n < |s| then s[n := s[n].(enabled := false)] else s
    case CyclicFree(n) => if n < |s| then s[n := s[n].(enabled := false, pending := false)] else s
    case Finish(n) =>
      if n < |s| && s[n].enabled && !s[n].ring then s[n := s[n].(enabled := false, pending := true)] else s
    case Isr => AllServed(s)
    case Close => AfterClose(s)
  }

  /** No completion is served on a channel that is no longer held, and the controller
      is not closed while a channel other than the first is the first one held. */
  predicate KeepsNames(s: seq<Channel>, e: Event) {
    match e
    case Isr => forall i :: 0 <= i < |s| && s[i].pending && !s[i].cyclic ==> s[i].lock == 0
    case Close => FirstHeld(s, 0) == 0 || FirstHeld(s, 0) == |s|
    case _ => true
  }

  /** A ring is started or resumed only on a channel that is held. */
  predicate RunsOwn(s: seq<Channel>, e: Event) {
    match e
    case CyclicStart(n) => n < |s| && s[n].bound ==> s[n].lock == 0
    case Resume(n) => n < |s| && s[n].bound ==> s[n].lock == 0
    case _ => true
  }

  predicate Proper(s: seq<Channel>, e: Event) {
    KeepsNames(s, e) && RunsOwn(s, e)
  }

  /** "Locked, not closed and with memory are the same" survives a step exactly if it
      serves no completion on a free channel and closes nothing up to a held one:
      preparing a ring on a free channel stops at an assertion first. */
  lemma StepKeepsExact(s: seq<Channel>, e: Event)
    requires Own(s)
    ensures Own(Step(s, e)) <==> KeepsNames(s, e)
  {
    var u := Step(s, e);
    if e.Isr? {
      IsrKeepsExact(s);
    } else if e.Close? {
      CloseKeepsExact(s);
    } else {
      forall i | 0 <= i < |u|
        ensures Sound(u[i])
      {
        assert Sound(s[i]);
      }
    }
  }

  lemma IsrKeepsExact(s: seq<Channel>)
    requires Own(s)
    ensures Own(AllServed(s)) <==> KeepsNames(s, Isr)
  {
    var u := AllServed(s);
    if !KeepsNames(s, Isr) {
      var i :| 0 <= i < |s| && s[i].pending && !s[i].cyclic && s[i].lock != 0;
      assert u[i] == Served(s[i]) && !Sound(u[i]);
    } else {
      forall i | 0 <= i < |u|
        ensures Sound(u[i])
      {
        assert u[i] == Served(s[i]) && Sound(s[i]);
      }
    }
  }

  lemma CloseKeepsExact(s: seq<Channel>)
    requires Own(s)
    ensures Own(AfterClose(s)) <==> KeepsNames(s, Close)
  {
    var u, h := AfterClose(s), FirstHeld(s, 0);
    if 0 < h < |s| {
      assert Sound(s[0]) && u[0] == Taken(s[0]) && !Sound(u[0]);
    } else {
      forall i | 0 <= i < |u|
        ensures Sound(u[i])
      {
        assert Sound(s[i]);
      }
    }
  }

  /** "Only locked channels run" survives a step exactly if it starts or resumes no
      ring on a channel that is no longer held, which the driver does not check. */
  lemma OnlyLockedRunExact(s: seq<Channel>, e: Event)
    requires OnlyLockedRun(s)
    ensures OnlyLockedRun(Step(s, e)) <==> RunsOwn(s, e)
  {
    var u := Step(s, e);
    if !RunsOwn(s, e) {
      assert u[e.n].enabled && u[e.n].lock != 0;
    } else if e.Isr? {
      forall i | 0 <= i < |u| && u[i].enabled
        ensures u[i].lock == 0
      {
        assert u[i] == Served(s[i]);
      }
    }
  }

  /** The holders: every grant adds one, every release takes one away. */
  function Holders(held: multiset<nat>, s: seq<Channel>, e: Event): multiset<nat> {
    match e
    case Request(want, mem) =>
      var answer := AfterRequest(s, want, mem).1;
      if answer.Granted? then held + multiset{answer.channel} else held
    case Release(n) => if AfterRelease(s, n).1 then held - multiset{n} else held
    case _ => held
  }

  /** The channels after a run, and who holds them. */
  function Run(s: seq<Channel>, events: seq<Event>): (seq<Channel>, multiset<nat>) {
    if events == [] then (s, multiset{})
    else
      var (u, held) := Run(s, events[..|events| - 1]);
      var e := events[|events| - 1];
      (Step(u, e), Holders(held, u, e))
  }

  predicate ProperRun(s: seq<Channel>, events: seq<Event>) {
    events != [] ==>
      var before := events[..|events| - 1];
      ProperRun(s, before) && Proper(Run(s, before).0, events[|events| - 1])
  }

  /** As fh81_dma_register leaves them. */
  function Registered(n: nat): seq<Channel> {
    seq(n, _ => Channel(1, Closed, false, false, false, false, false, false))
  }

  /** Every channel has exactly the holders its lock says. */
  predicate Agree(s: seq<Channel>, held: multiset<nat>) {
    forall i :: 0 <= i < |s| ==> held[i] == 1 - s[i].lock
  }

  lemma RequestAgrees(s: seq<Channel>, held: multiset<nat>, want: Option<nat>, mem: bool, i: nat)
    requires i < |s| && Sound(s[i]) && held[i] == 1 - s[i].lock
    ensures |Step(s, Request(want, mem))| == |s|
    ensures Holders(held, s, Request(want, mem))[i] == 1 - Step(s, Request(want, mem))[i].lock
  {
  }

  lemma ReleaseAgrees(s: seq<Channel>, held: multiset<nat>, n: nat, i: nat)
    requires i < |s| && Sound(s[i]) && held[i] == 1 - s[i].lock
    ensures |Step(s, Release(n))| == |s|
    ensures Holders(held, s, Release(n))[i] == 1 - Step(s, Release(n))[i].lock
  {
  }

  lemma OthersAgree(s: seq<Channel>, held: multiset<nat>, e: Event, i: nat)
    requires i < |s| && !e.Request? && !e.Release? && Proper(s, e)
    ensures |Step(s, e)| == |s| && Step(s, e)[i].lock == s[i].lock
    ensures Holders(held, s, e) == held
  {
    if e.Isr? {
      assert AllServed(s)[i] == Served(s[i]);
    }
  }

  lemma AgreeKept(s: seq<Channel>, held: multiset<nat>, e: Event)
    requires Own(s) && Agree(s, held) && Proper(s, e)
    ensures |Step(s, e)| == |s| && Agree(Step(s, e), Holders(held, s, e))
  {
    forall i: nat | i < |s|
      ensures |Step(s, e)| == |s| && Holders(held, s, e)[i] == 1 - Step(s, e)[i].lock
    {
      assert Sound(s[i]) && held[i] == 1 - s[i].lock;
      match e {
        case Request(want, mem) => RequestAgrees(s, held, want, mem, i);
        case Release(n) => ReleaseAgrees(s, held, n, i);
        case _ => OthersAgree(s, held, e, i);
      }
    }
  }

  /** When only locked channels run, an automatic request is granted exactly if memory is
      there and some lock is free, and it gets the lowest such channel; a named one
      exactly if that channel's lock is free and memory is there. No request for a
      channel there is ever stops. */
  lemma RequestExact(s: seq<Channel>, want: Option<nat>, mem: bool)
    requires OnlyLockedRun(s)
    ensures var answer := AfterRequest(s, want, mem).1;
            match want
            case None =>
              && (answer.Granted? <==> mem && exists i :: 0 <= i < |s| && s[i].lock > 0)
              && (answer.Granted? ==>
                    && answer.channel < |s| && s[answer.channel].lock > 0
                    && forall i :: 0 <= i < answer.channel ==> s[i].lock == 0)
              && !answer.Stopped?
            case Some(n) =>
              && (answer.Granted? <==> n < |s| && s[n].lock > 0 && mem)
              && (answer.Granted? ==> answer.channel == n)
              && (answer.Stopped? <==> n >= |s|)
  {
  }

  /** In every proper run a channel is locked, not closed, and has its memory
      exactly while somebody holds it, and nobody ever shares one. With memory, an
      automatic request is refused exactly while all channels are held, and one in
      range for a named channel exactly while that one is. */
  lemma {:induction false} OneHolder(n: nat, events: seq<Event>)
    requires ProperRun(Registered(n), events)
    ensures var (s, held) := Run(Registered(n), events);
            && |s| == n && Own(s) && OnlyLockedRun(s) && Agree(s, held)
            && (AfterRequest(s, None, true).1 == Refused <==> forall i: nat :: i < n ==> held[i] > 0)
            && (forall i: nat :: i < n ==>
                  AfterRequest(s, Some(i), true).1 == if held[i] > 0 then Refused else Granted(i))
  {
    var (s, held) := Run(Registered(n), events);
    if events != [] {
      var before := events[..|events| - 1];
      OneHolder(n, before);
      var (u, was) := Run(Registered(n), before);
      StepKeepsExact(u, events[|events| - 1]);
      OnlyLockedRunExact(u, events[|events| - 1]);
      AgreeKept(u, was, events[|events| - 1]);
    }
    HeldRefuses(s, held);
  }

  lemma HeldRefuses(s: seq<Channel>, held: multiset<nat>)
    requires OnlyLockedRun(s) && Agree(s, held)
    ensures AfterRequest(s, None, true).1 == Refused <==> forall i: nat :: i < |s| ==> held[i] > 0
    ensures forall i: nat :: i < |s| ==>
              AfterRequest(s, Some(i), true).1 == if held[i] > 0 then Refused else Granted(i)
  {
    RequestExact(s, None, true);
    forall i: nat | i < |s|
      ensures AfterRequest(s, Some(i), true).1 == if held[i] > 0 then Refused else Granted(i)
      ensures held[i] == 1 - s[i].lock
    {
      RequestExact(s, Some(i), true);
    }
  }

  lemma LockStays(s: seq<Channel>, e: Event, i: nat)
    requires i < |s| && s[i].lock == 0 && !e.Release?
    ensures |Step(s, e)| == |s| && Step(s, e)[i].lock == 0
  {
  }

  /** Locks that are taken stay taken while no channel is released. */
  lemma {:induction false} LocksStay(s: seq<Channel>, events: seq<Event>, i: nat)
    requires i < |s| && s[i].lock == 0
    requires forall e :: e in events ==> !e.Release?
    ensures |Run(s, events).0| == |s| && Run(s, events).0[i].lock == 0
  {
    if events != [] {
      var before := events[..|events| - 1];
      forall e | e in before
        ensures !e.Release?
      {
        assert e in events;
      }
      LocksStay(s, before, i);
      assert events[|events| - 1] in events;
      LockStays(Run(s, before).0, events[|events| - 1], i);
    }
  }

  /** fh_spi_probe asks for the receive channel, then for the transmit channel.
      Whatever others do in between, as long as nobody releases a channel: the first
      request is granted if a channel is free, the second if one still is, and then the
      receive channel has the lower number, hence the higher priority. */
  lemma ReceiveBelowTransmit(s: seq<Channel>, events: seq<Event>)
    requires Own(s) && forall e :: e in events ==> !e.Release?
    ensures var (t, rx) := AfterRequest(s, None, true);
            var u := Run(t, events).0;
            var tx := AfterRequest(u, None, true).1;
            && (OnlyLockedRun(s) ==> (rx.Granted? <==> exists i :: 0 <= i < |s| && s[i].lock > 0))
            && (OnlyLockedRun(u) ==> (tx.Granted? <==> exists i :: 0 <= i < |u| && u[i].lock > 0))
            && (rx.Granted? && tx.Granted? ==> rx.channel < tx.channel)
  {
    var (t, rx) := AfterRequest(s, None, true);
    if rx.Granted? {
      var u := Run(t, events).0;
      forall i | 0 <= i <= rx.channel
        ensures |u| == |t| && u[i].lock == 0
      {
        LocksStay(t, events, i);
      }
    }
  }

  /** On a controller with two free channels the probe gets the lowest two, in order. */
  lemma ProbeGetsBoth(s: seq<Channel>, i: nat, j: nat)
    requires Own(s) && OnlyLockedRun(s) && i < j < |s| && s[i].lock > 0 && s[j].lock > 0
    requires forall k :: 0 <= k < j && k != i ==> s[k].lock == 0
    ensures var (t, rx) := AfterRequest(s, None, true);
            rx == Granted(i) && AfterRequest(t, None, true).1 == Granted(j)
  {
    var (t, rx) := AfterRequest(s, None, true);
    RequestExact(s, None, true);
    assert Sound(s[i]) && t == s[i := t[i]] && t[i].lock == 0;
    RequestExact(t, None, true);
    assert t[j].lock > 0;
  }

  /** With releases in between, the second request is still granted if a channel is
      free, and the order holds exactly if no channel below the receive channel is. */
  lemma ReceiveBelowTransmitExact(u: seq<Channel>, rx: nat)
    requires rx < |u| && u[rx].lock == 0
    ensures var tx := AfterRequest(u, None, true).1;
            && (OnlyLockedRun(u) ==> (tx.Granted? <==> exists i :: 0 <= i < |u| && u[i].lock > 0))
            && (tx.Granted? ==> (rx < tx.channel <==> forall i :: 0 <= i < rx ==> u[i].lock == 0))
  {
  }

  /** In a sound state a one-shot transfer is accepted exactly on a held channel; once
      its completion is served the channel is idle and still its holder's. */
  lemma SingleExact(s: seq<Channel>, n: nat)
    requires Own(s)
    ensures var (t, ok) := AfterSingle(s, n);
            && (ok <==> n < |s| && s[n].lock == 0)
            && (ok ==>
                  var u := Step(Step(t, Finish(n)), Isr);
                  |u| == |s| && u[n].status == Idle && !u[n].enabled && !u[n].pending && u[n].lock == 0)
  {
    if n < |s| {
      assert Sound(s[n]);
      var t := Step(AfterSingle(s, n).0, Finish(n));
      assert AllServed(t)[n] == Served(t[n]);
    }
  }

  /** And a ring is prepared exactly on a held channel; it then runs from its start,
      and from a resume after each pause. */
  lemma RingExact(s: seq<Channel>, n: nat)
    requires Own(s)
    ensures var (t, ok) := AfterPrepare(s, n);
            && (ok <==> n < |s| && s[n].lock == 0)
            && (ok ==>
                  var u := Step(t, CyclicStart(n));
                  var v := Step(u, Pause(n));
                  |v| == |u| == |s| && u[n].enabled && !v[n].enabled && Step(v, Resume(n)) == u)
  {
    if n < |s| {
      assert Sound(s[n]);
    }
  }

  /** A completion served after its channel was released makes the channel look in
      use again, so that a second release is accepted and two clients then get it. */
  lemma LateCompletionShares(s: seq<Channel>, n: nat)
    requires n < |s| && Sound(s[n]) && s[n].lock == 0 && s[n].pending && !s[n].cyclic && !s[n].enabled
    ensures var released := AfterRelease(Step(AfterRelease(s, n).0, Isr), n);
            var first := AfterRequest(released.0, Some(n), true);
            var second := AfterRequest(first.0, Some(n), true);
            released.1 && first.1 == second.1 == Granted(n)
  {
    var a := AfterRelease(s, n).0;
    assert AllServed(a)[n] == Served(a[n]);
  }

  class Controller {
    const channel: array<Channel>

    constructor (n: nat)
      ensures fresh(channel) && channel[..] == Registered(n)
    {
      channel := new Channel[n](_ => Channel(1, Closed, false, false, false, false, false, false));
    }

    /** handle_request_channel */
    method RequestChannel(want: Option<nat>, mem: bool) returns (answer: Answer)
      modifies channel
      ensures (channel[..], answer) == AfterRequest(old(channel[..]), want, mem)
    {
      ghost var s := channel[..];
      var n: nat;
      if want == None {
        n := 0;
        while n < channel.Length
          invariant n <= channel.Length && FreeFrom(s, 0) == FreeFrom(s, n)
        {
          if channel[n].lock > 0 {
            break;
          }
          n := n + 1;
        }
        if n == channel.Length {
          return Refused;
        }
      } else {
        n := want.value;
        if n >= channel.Length {
          return Stopped;
        }
        if channel[n].lock == 0 {
          return Refused;
        }
      }
      if channel[n].enabled {
        return Stopped;
      }
      channel[n] := channel[n].(lock := channel[n].lock - 1, status := Open);
      if !mem {
        channel[n] := channel[n].(mem := false, status := Closed);
        channel[n] := channel[n].(lock := channel[n].lock + 1);
        assert channel[..] == s[n := channel[n]];
        return Refused;
      }
      channel[n] := channel[n].(mem := true);
      assert channel[..] == s[n := channel[n]];
      answer := Granted(n);
    }

    /** handle_release_channel; false when its assertions fail. */
    method ReleaseChannel(n: nat) returns (ok: bool)
      modifies channel
      ensures (channel[..], ok) == AfterRelease(old(channel[..]), n)
    {
      ghost var s := channel[..];
      if n >= channel.Length || channel[n].status == Closed {
        return false;
      }
      channel[n] := channel[n].(enabled := false);
      channel[n] := channel[n].(lock := channel[n].lock + 1);
      channel[n] := channel[n].(status := Closed, cyclic := false, mem := false);
      assert channel[..] == s[n := channel[n]];
      ok := true;
    }

    /** The channel loop of rt_fh81_dma_isr */
    method ServeInterrupt()
      modifies channel
      ensures channel[..] == AllServed(old(channel[..]))
    {
      for i := 0 to channel.Length
        invariant forall k :: 0 <= k < i ==> channel[k] == Served(old(channel[k]))
        invariant forall k :: i <= k < channel.Length ==> channel[k] == old(channel[k])
      {
        if !channel[i].cyclic && channel[i].pending {
          channel[i] := channel[i].(pending := false);
          channel[i] := channel[i].(status := Idle);
        }
      }
    }

    /** handle_dma_close; false when it waits for a channel that is held. */
    method CloseAll() returns (done: bool)
      modifies channel
      ensures channel[..] == AfterClose(old(channel[..]))
      ensures done <==> FirstHeld(old(channel[..]), 0) == channel.Length
    {
      done := TakeAll();
      if done {
        GiveBack();
      }
    }

    /** The loop that locks and closes every channel; false where it waits. */
    method TakeAll() returns (done: bool)
      modifies channel
      ensures done <==> FirstHeld(old(channel[..]), 0) == channel.Length
      ensures forall k :: 0 <= k < FirstHeld(old(channel[..]), 0) ==> channel[k] == Taken(old(channel[k]))
      ensures forall k :: FirstHeld(old(channel[..]), 0) <= k < channel.Length ==> channel[k] == old(channel[k])
    {
      ghost var s := channel[..];
      var i := 0;
      while i < channel.Length
        invariant 0 <= i <= channel.Length && FirstHeld(s, 0) == FirstHeld(s, i)
        invariant forall k :: 0 <= k < i ==> channel[k] == Taken(s[k])
        invariant forall k :: i <= k < channel.Length ==> channel[k] == s[k]
      {
        if channel[i].lock == 0 {
          return false;
        }
        channel[i] := channel[i].(lock := channel[i].lock - 1);
        channel[i] := channel[i].(enabled := false, status := Closed);
        assert channel[i] == Taken(s[i]);
        i := i + 1;
      }
      done := true;
    }

    /** The loop that gives every lock back. */
    method GiveBack()
      modifies channel
      ensures forall k :: 0 <= k < channel.Length ==>
                channel[k] == old(channel[k]).(lock := old(channel[k]).lock + 1)
    {
      for j := 0 to channel.Length
        invariant forall k :: 0 <= k < j ==> channel[k] == old(channel[k]).(lock := old(channel[k]).lock + 1)
        invariant forall k :: j <= k < channel.Length ==> channel[k] == old(channel[k])
      {
        channel[j] := channel[j].(lock := channel[j].lock + 1);
      }
    }
  }
}
