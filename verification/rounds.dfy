/**
  What the events of a round come to, event by event and batch by batch: what is read, what is queued, which connections
  end. And why every state of the loop is one that single steps can reach.
*/
module Rounds {
  import opened Bytes
  import opened Protocols
  import opened Registry
  import opened RegistryRuns
  import opened Responses
  import opened Iteration

  // ----- one connection's messages -----

  /** A hibernation packet of zx303. */
  predicate SaysGoodbye(m: Labelled) {
    m.proto == Zx && |m.packet| >= 2 && m.packet[1] == 0x14
  }

  predicate AnyGoodbye(msgs: seq<Labelled>) {
    exists k :: 0 <= k < |msgs| && SaysGoodbye(msgs[k])
  }

  /** One answer for each message that has one, to the imei that the message is labelled with. */
  function Answers(cfg: Config, msgs: seq<Labelled>): seq<Resp> {
    if msgs == [] then []
    else
      var answer := cfg.inline(msgs[0].proto, msgs[0].packet);
      (if answer.Some? then [Resp(msgs[0].imei, answer.value)] else []) + Answers(cfg, msgs[1..])
  }

  lemma AnyGoodbyeCons(m: Labelled, msgs: seq<Labelled>)
    ensures AnyGoodbye([m] + msgs) <==> SaysGoodbye(m) || AnyGoodbye(msgs)
  {
    var all := [m] + msgs;
    if SaysGoodbye(m) {
      assert SaysGoodbye(all[0]);
    }
    if k: int :| 0 <= k < |msgs| && SaysGoodbye(msgs[k]) {
      assert SaysGoodbye(all[k + 1]);
    }
  }

  lemma StopTwice(reg: Registry, fd: int)
    requires Invariant(reg)
    ensures Invariant(Stop(reg, fd)) && Stop(Stop(reg, fd), fd) == Stop(reg, fd)
  {
    StopOk(reg, fd);
    StopOk(Stop(reg, fd), fd);
  }

  lemma {:induction false} ConsumeExact(cfg: Config, b: Batch, fd: int, msgs: seq<Labelled>)
    requires Invariant(b.reg) && MsgsOk(msgs)
    ensures Consume(cfg, b, fd, msgs) ==
            Batch(if cfg.hibernate && AnyGoodbye(msgs) then Stop(b.reg, fd) else b.reg,
                  b.tosend + Answers(cfg, msgs), b.toadd, b.published + msgs)
    decreases |msgs|
  {
    if msgs == [] {
      assert b.tosend + [] == b.tosend && b.published + [] == b.published;
    } else {
      var m, more := msgs[0], msgs[1..];
      assert m in msgs && msgs == [m] + more;
      var answer := cfg.inline(m.proto, m.packet);
      AnyGoodbyeCons(m, more);
      StopTwice(b.reg, fd);
      ConsumeExact(cfg, ConsumeOne(cfg, b, fd, m), fd, more);
      Assoc(b.tosend, if answer.Some? then [Resp(m.imei, answer.value)] else [], Answers(cfg, more));
      Assoc(b.published, [m], more);
    }
  }

  // ----- one event -----

  /** What is read on an event: nothing unless a served connection is readable and has sent something. */
  function ReadBy(cfg: Config, reg: Registry, ev: Event): seq<Labelled> {
    if ev.Readable? && Recv(cfg.pmods, reg, ev.fd, ev.input).msgs.Some?
    then Recv(cfg.pmods, reg, ev.fd, ev.input).msgs.value
    else []
  }

  /** The connection at `fd` ends on what is read: an error, the end of the stream, or a goodbye that is handled. */
  predicate Ends(cfg: Config, reg: Registry, fd: int, input: Input) {
    || input.Failed? || input.bytes == []
    || (cfg.hibernate && AnyGoodbye(ReadBy(cfg, reg, Event.Readable(fd, input))))
  }

  /** The registry after an event. */
  function After(cfg: Config, reg: Registry, ev: Event): Registry {
    match ev
    case Readable(fd, input) =>
      var read := Recv(cfg.pmods, reg, fd, input).reg;
      if Ends(cfg, reg, fd, input) then Stop(read, fd) else read
    case _ => reg
  }

  function QueuedBy(cfg: Config, reg: Registry, ev: Event): seq<Resp> {
    match ev
    case FromBus(resps) => resps
    case Readable(_, _) => Answers(cfg, ReadBy(cfg, reg, ev))
    case _ => []
  }

  /**
    An event publishes exactly what it reads, queues exactly what the bus brings or the messages are answered with,
    takes up exactly what is accepted, and ends a connection for exactly three reasons.
  */
  lemma EventExact(cfg: Config, b: Batch, ev: Event)
    requires Invariant(b.reg)
    ensures HandleEvent(cfg, b, ev) ==
            Batch(After(cfg, b.reg, ev), b.tosend + QueuedBy(cfg, b.reg, ev),
                  b.toadd + (if ev.Incoming? then [ev.fd] else []), b.published + ReadBy(cfg, b.reg, ev))
  {
    assert b.tosend + [] == b.tosend && b.toadd + [] == b.toadd && b.published + [] == b.published;
    match ev
    case Readable(fd, input) =>
      var out := Recv(cfg.pmods, b.reg, fd, input);
      RecvOk(cfg.pmods, b.reg, fd, input);
      RecvMsgsOk(cfg.pmods, b.reg, fd, input);
      if out.msgs.None? {
        StopOk(b.reg, fd);
      } else {
        ConsumeExact(cfg, b.(reg := out.reg), fd, out.msgs.value);
      }
    case _ =>
  }

  // ----- who is left -----

  /** The connection at `f` has lost its imei to the one at `fd`, which had none when it sent `msgs`. */
  predicate Displaced(reg: Registry, fd: int, msgs: seq<Labelled>, f: int) {
    && fd in reg.conns && reg.conns[fd].imei == None
    && f in reg.conns && reg.conns[f].imei.Some?
    && exists k :: 0 <= k < |msgs| && msgs[k].imei == reg.conns[f].imei
  }

  /** Of the other connections exactly those are left, and as they were, that are not displaced. */
  ghost predicate OnlyDisplacedGo(before: Registry, after: Registry, fd: int, msgs: seq<Labelled>) {
    forall f :: f != fd ==>
      && (f in after.conns <==> f in before.conns && !Displaced(before, fd, msgs, f))
      && (f in after.conns ==> after.conns[f] == before.conns[f])
  }

  lemma {:induction false} NamedTakesNothing(reg: Registry, fd: int, p: Proto, packets: seq<seq<byte>>)
    requires AllOk(p, packets) && fd in reg.conns && reg.conns[fd].imei.Some?
    ensures TakeAll(reg, fd, p, packets).reg == reg
    ensures forall m :: m in TakeAll(reg, fd, p, packets).msgs ==> m.imei == reg.conns[fd].imei
    decreases |packets|
  {
    if packets != [] {
      assert packets[0] in packets;
      NamedTakesNothing(reg, fd, p, packets[1..]);
    }
  }

  lemma {:induction false} TakeAllDisplaces(reg: Registry, fd: int, p: Proto, packets: seq<seq<byte>>)
    requires Sane(reg) && fd in reg.conns && AllOk(p, packets)
    requires reg.conns[fd].stream.Some? && ProtoOf(reg.conns[fd].stream.value) == p
    ensures var taken := TakeAll(reg, fd, p, packets); OnlyDisplacedGo(reg, taken.reg, fd, taken.msgs)
    decreases |packets|
  {
    if reg.conns[fd].imei.Some? {
      NamedTakesNothing(reg, fd, p, packets);
    } else if packets != [] {
      var packet, more := packets[0], packets[1..];
      assert packet in packets;
      var now := TakePacket(reg, fd, p, packet);
      TakePacketOk(reg, fd, p, packet);
      var taken, later := TakeAll(reg, fd, p, packets), TakeAll(now, fd, p, more);
      assert taken.msgs == [Labelled(p, LabelOf(now, fd), packet)] + later.msgs;
      if ImeiFromPacket(p, packet).Some? {
        NamedTakesNothing(now, fd, p, more);
        LoginDisplaces(reg, fd, ImeiFromPacket(p, packet).value, taken.msgs);
      } else {
        TakeAllDisplaces(reg, fd, p, more);
        NamelessFirst(reg, fd, taken.msgs[0], later.msgs);
      }
    }
  }

  /** All messages carry the new imei, so that whoever held it is the one displaced. */
  lemma LoginDisplaces(reg: Registry, fd: int, imei: Imei, msgs: seq<Labelled>)
    requires Sane(reg) && fd in reg.conns && reg.conns[fd].imei == None
    requires msgs != [] && forall m :: m in msgs ==> m.imei == Some(imei)
    ensures OnlyDisplacedGo(reg, LogIn(reg, fd, imei), fd, msgs)
  {
    LogInFrame(reg, fd, imei);
    forall f | f != fd
      ensures Displaced(reg, fd, msgs, f) <==> f in reg.conns && reg.conns[f].imei == Some(imei)
      ensures f in reg.conns && reg.conns[f].imei == Some(imei) <==> imei in reg.byImei && reg.byImei[imei].fd == f
    {
      MapsAgree(reg, imei, f);
      assert msgs[0] in msgs;
      assert forall k :: 0 <= k < |msgs| ==> msgs[k] in msgs;
    }
  }

  lemma NamelessFirst(reg: Registry, fd: int, m: Labelled, msgs: seq<Labelled>)
    requires m.imei == None
    ensures forall f :: Displaced(reg, fd, [m] + msgs, f) <==> Displaced(reg, fd, msgs, f)
  {
    var all := [m] + msgs;
    forall f ensures Displaced(reg, fd, all, f) <==> Displaced(reg, fd, msgs, f) {
      if f in reg.conns && reg.conns[f].imei.Some? {
        if k: int :| 0 <= k < |msgs| && msgs[k].imei == reg.conns[f].imei {
          assert all[k + 1].imei == reg.conns[f].imei;
        }
        if k: int :| 0 <= k < |all| && all[k].imei == reg.conns[f].imei {
          assert k > 0 && msgs[k - 1].imei == reg.conns[f].imei;
        }
      }
    }
  }

  lemma RecvDisplaces(pmods: seq<Proto>, reg: Registry, fd: int, input: Input)
    requires Invariant(reg)
    ensures var out := Recv(pmods, reg, fd, input);
            OnlyDisplacedGo(reg, out.reg, fd, if out.msgs.Some? then out.msgs.value else [])
  {
    var out := Recv(pmods, reg, fd, input);
    RecvOk(pmods, reg, fd, input);
    if out.msgs.Some? {
      var c := reg.conns[fd];
      var got := ClientRecv(pmods, c, input.bytes);
      ClientPacketsOk(pmods, c, input.bytes);
      if got.conn.stream.Some? {
        var p, mid := ProtoOf(got.conn.stream.value), reg.(conns := reg.conns[fd := got.conn]);
        assert got.conn.imei == c.imei && got.conn.serial == c.serial;
        ReplaceSane(reg, fd, got.conn);
        TakeAllDisplaces(mid, fd, p, got.packets);
        SameOthers(reg, mid, TakeAll(mid, fd, p, got.packets).reg, out.reg, fd, out.msgs.value);
      }
    }
  }

  lemma SameOthers(reg: Registry, mid: Registry, taken: Registry, end: Registry, fd: int, msgs: seq<Labelled>)
    requires fd in reg.conns && fd in mid.conns && mid.conns[fd].imei == reg.conns[fd].imei
    requires forall f :: f != fd ==>
               (f in mid.conns <==> f in reg.conns) && (f in mid.conns ==> mid.conns[f] == reg.conns[f])
    requires forall f :: f != fd ==>
               (f in end.conns <==> f in taken.conns) && (f in end.conns ==> end.conns[f] == taken.conns[f])
    requires OnlyDisplacedGo(mid, taken, fd, msgs)
    ensures OnlyDisplacedGo(reg, end, fd, msgs)
  {
    forall f | f != fd ensures Displaced(reg, fd, msgs, f) <==> Displaced(mid, fd, msgs, f) {
    }
  }

  /**
    Who is served after a read: its own connection unless it was not served, nothing could be read, or a goodbye among
    its messages is handled; the others, as they were, unless displaced by its login.
  */
  lemma ServedAfterRead(cfg: Config, b: Batch, fd: int, input: Input)
    requires Invariant(b.reg)
    ensures var after := HandleEvent(cfg, b, Event.Readable(fd, input)).reg;
            var read := Recv(cfg.pmods, b.reg, fd, input).msgs;
            var msgs := if read.Some? then read.value else [];
            && (fd !in after.conns <==>
                || fd !in b.reg.conns || input.Failed? || input.bytes == []
                || (cfg.hibernate && exists k :: 0 <= k < |msgs| && msgs[k].proto == Zx && |msgs[k].packet| >= 2
                                                 && msgs[k].packet[1] == 0x14))
            && OnlyDisplacedGo(b.reg, after, fd, msgs)
  {
    var ev, out := Event.Readable(fd, input), Recv(cfg.pmods, b.reg, fd, input);
    EventExact(cfg, b, ev);
    RecvOk(cfg.pmods, b.reg, fd, input);
    RecvDisplaces(cfg.pmods, b.reg, fd, input);
    StopOk(out.reg, fd);
    var msgs := if out.msgs.Some? then out.msgs.value else [];
    assert msgs == ReadBy(cfg, b.reg, ev);
    assert AnyGoodbye(msgs) <==> exists k :: 0 <= k < |msgs| && msgs[k].proto == Zx && |msgs[k].packet| >= 2
                                              && msgs[k].packet[1] == 0x14 by {
      if k :| 0 <= k < |msgs| && msgs[k].proto == Zx && |msgs[k].packet| >= 2 && msgs[k].packet[1] == 0x14 {
        assert SaysGoodbye(msgs[k]);
      }
    }
  }

  // ----- a batch -----

  function RegAfter(cfg: Config, reg: Registry, events: seq<Event>): Registry
    decreases |events|
  {
    if events == [] then reg else RegAfter(cfg, After(cfg, reg, events[0]), events[1..])
  }

  function AllRead(cfg: Config, reg: Registry, events: seq<Event>): seq<Labelled>
    decreases |events|
  {
    if events == [] then [] else ReadBy(cfg, reg, events[0]) + AllRead(cfg, After(cfg, reg, events[0]), events[1..])
  }

  function AllQueued(cfg: Config, reg: Registry, events: seq<Event>): seq<Resp>
    decreases |events|
  {
    if events == [] then [] else QueuedBy(cfg, reg, events[0]) + AllQueued(cfg, After(cfg, reg, events[0]), events[1..])
  }

  /** A batch of events is their effects one after the other: nothing is lost, repeated or put in another order. */
  lemma {:induction false} BatchExact(cfg: Config, b: Batch, events: seq<Event>)
    requires Invariant(b.reg)
    ensures HandleAll(cfg, b, events) ==
            Batch(RegAfter(cfg, b.reg, events), b.tosend + AllQueued(cfg, b.reg, events),
                  b.toadd + Accepts(events), b.published + AllRead(cfg, b.reg, events))
    decreases |events|
  {
    if events == [] {
      assert b.tosend + [] == b.tosend && b.toadd + [] == b.toadd && b.published + [] == b.published;
    } else {
      var ev, more := events[0], events[1..];
      var now, next := HandleEvent(cfg, b, ev), After(cfg, b.reg, ev);
      EventExact(cfg, b, ev);
      HandleEventOk(cfg, b, ev);
      BatchExact(cfg, now, more);
      Assoc(b.tosend, QueuedBy(cfg, b.reg, ev), AllQueued(cfg, next, more));
      Assoc(b.toadd, if ev.Incoming? then [ev.fd] else [], Accepts(more));
      Assoc(b.published, ReadBy(cfg, b.reg, ev), AllRead(cfg, next, more));
    }
  }

  // ----- rounds are runs of steps -----

  /** What an event does to the registry, as single steps. */
  function StepsBy(cfg: Config, reg: Registry, ev: Event): seq<Step> {
    match ev
    case Readable(fd, input) =>
      [Arrived(fd, input)] + (if Ends(cfg, reg, fd, input) then [StopRequested(fd)] else [])
    case _ => []
  }

  function StepsOf(cfg: Config, reg: Registry, events: seq<Event>): seq<Step>
    decreases |events|
  {
    if events == [] then [] else StepsBy(cfg, reg, events[0]) + StepsOf(cfg, After(cfg, reg, events[0]), events[1..])
  }

  function AcceptSteps(fds: seq<int>): seq<Step> {
    if fds == [] then [] else [Step.Accepted(fds[0])] + AcceptSteps(fds[1..])
  }

  /** What reading has returned over a run, on any connection. */
  function ReturnedInAll(pmods: seq<Proto>, reg: Registry, steps: seq<Step>): seq<Labelled>
    decreases |steps|
  {
    if steps == [] then []
    else
      (if steps[0].Arrived? then Returned(pmods, reg, steps[0], steps[0].fd) else [])
      + ReturnedInAll(pmods, Apply(pmods, reg, steps[0]), steps[1..])
  }

  lemma {:induction false} RunAppend(pmods: seq<Proto>, reg: Registry, a: seq<Step>, b: seq<Step>)
    ensures RunSteps(pmods, reg, a + b) == RunSteps(pmods, RunSteps(pmods, reg, a), b)
    ensures FreshDescriptors(pmods, reg, a + b) <==>
            FreshDescriptors(pmods, reg, a) && FreshDescriptors(pmods, RunSteps(pmods, reg, a), b)
    ensures ReturnedInAll(pmods, reg, a + b) ==
            ReturnedInAll(pmods, reg, a) + ReturnedInAll(pmods, RunSteps(pmods, reg, a), b)
    decreases |a|
  {
    if a == [] {
      assert a + b == b;
    } else {
      assert (a + b)[0] == a[0] && (a + b)[1..] == a[1..] + b;
      var now := Apply(pmods, reg, a[0]);
      RunAppend(pmods, now, a[1..], b);
      Assoc(if a[0].Arrived? then Returned(pmods, reg, a[0], a[0].fd) else [], ReturnedInAll(pmods, now, a[1..]),
            ReturnedInAll(pmods, RunSteps(pmods, now, a[1..]), b));
    }
  }

  lemma EventIsSteps(cfg: Config, reg: Registry, ev: Event)
    ensures var steps := StepsBy(cfg, reg, ev);
            && RunSteps(cfg.pmods, reg, steps) == After(cfg, reg, ev)
            && FreshDescriptors(cfg.pmods, reg, steps)
            && ReturnedInAll(cfg.pmods, reg, steps) == ReadBy(cfg, reg, ev)
  {
    if ev.Readable? {
      var arrived := Arrived(ev.fd, ev.input);
      var now := Apply(cfg.pmods, reg, arrived);
      OneStep(cfg.pmods, reg, arrived);
      if Ends(cfg, reg, ev.fd, ev.input) {
        OneStep(cfg.pmods, now, StopRequested(ev.fd));
        RunAppend(cfg.pmods, reg, [arrived], [StopRequested(ev.fd)]);
        assert ReadBy(cfg, reg, ev) + [] == ReadBy(cfg, reg, ev);
      } else {
        assert [arrived] + [] == [arrived];
      }
    }
  }

  lemma OneStep(pmods: seq<Proto>, reg: Registry, step: Step)
    ensures RunSteps(pmods, reg, [step]) == Apply(pmods, reg, step)
    ensures FreshDescriptors(pmods, reg, [step]) <==> (step.Accepted? ==> step.fd !in reg.conns)
    ensures ReturnedInAll(pmods, reg, [step]) == if step.Arrived? then Returned(pmods, reg, step, step.fd) else []
  {
    assert [step][1..] == [];
    var now := Apply(pmods, reg, step);
    assert RunSteps(pmods, now, []) == now && FreshDescriptors(pmods, now, []) && ReturnedInAll(pmods, now, []) == [];
  }

  lemma {:induction false} EventsAreSteps(cfg: Config, reg: Registry, events: seq<Event>)
    ensures var steps := StepsOf(cfg, reg, events);
            && RunSteps(cfg.pmods, reg, steps) == RegAfter(cfg, reg, events)
            && FreshDescriptors(cfg.pmods, reg, steps)
            && ReturnedInAll(cfg.pmods, reg, steps) == AllRead(cfg, reg, events)
    decreases |events|
  {
    if events != [] {
      var now := After(cfg, reg, events[0]);
      EventIsSteps(cfg, reg, events[0]);
      EventsAreSteps(cfg, now, events[1..]);
      RunAppend(cfg.pmods, reg, StepsBy(cfg, reg, events[0]), StepsOf(cfg, now, events[1..]));
    }
  }

  lemma {:induction false} AddsAreSteps(pmods: seq<Proto>, reg: Registry, fds: seq<int>)
    requires Distinct(fds) && forall fd :: fd in fds ==> fd !in reg.conns
    ensures RunSteps(pmods, reg, AcceptSteps(fds)) == AddAll(reg, fds)
    ensures FreshDescriptors(pmods, reg, AcceptSteps(fds))
    ensures ReturnedInAll(pmods, reg, AcceptSteps(fds)) == []
    decreases |fds|
  {
    if fds != [] {
      var now := Add(reg, fds[0]);
      assert AcceptSteps(fds)[1..] == AcceptSteps(fds[1..]);
      forall fd | fd in fds[1..] ensures fd !in now.conns {
        var j :| 0 <= j < |fds[1..]| && fds[1..][j] == fd;
        assert fds[j + 1] == fd && fds[0] != fds[j + 1];
      }
      AddsAreSteps(pmods, now, fds[1..]);
    }
  }

  function RoundSteps(cfg: Config, reg: Registry, events: seq<Event>): seq<Step> {
    StepsOf(cfg, reg, events)
    + (if Iterate(cfg, reg, events).sent.running then AcceptSteps(Accepts(events)) else [])
  }

  /**
    A round is a run of single steps, and publishes exactly what reading returns in it. So what is proved of all runs,
    above all who a response reaches and what one connection delivers, holds of the loop.
  */
  lemma RoundIsRun(cfg: Config, reg: Registry, events: seq<Event>)
    requires Invariant(reg) && FreshAccepts(reg, events)
    ensures var steps, done := RoundSteps(cfg, reg, events), Iterate(cfg, reg, events);
            && RunSteps(cfg.pmods, reg, steps) == done.reg
            && FreshDescriptors(cfg.pmods, reg, steps)
            && ReturnedInAll(cfg.pmods, reg, steps) == done.published
  {
    var b := HandleAll(cfg, Start(reg), events);
    var steps := StepsOf(cfg, reg, events);
    BatchExact(cfg, Start(reg), events);
    assert b.published == [] + AllRead(cfg, reg, events) == AllRead(cfg, reg, events);
    assert b.toadd == [] + Accepts(events) == Accepts(events);
    EventsAreSteps(cfg, reg, events);
    if Iterate(cfg, reg, events).sent.running {
      FreshAreUnused(cfg, reg, events);
      AddsAreSteps(cfg.pmods, b.reg, Accepts(events));
      RunAppend(cfg.pmods, reg, steps, AcceptSteps(Accepts(events)));
      assert AllRead(cfg, reg, events) + [] == AllRead(cfg, reg, events);
    } else {
      assert steps + [] == steps;
    }
  }

  /** Whatever the loop has come to after any number of rounds, single steps can come to, too. */
  lemma {:induction false} RoundsAreRuns(cfg: Config, reg: Registry, rounds: seq<seq<Event>>) returns (steps: seq<Step>)
    requires Invariant(reg) && AlwaysFresh(cfg, reg, rounds)
    ensures RunSteps(cfg.pmods, reg, steps) == RunRounds(cfg, reg, rounds)
    ensures FreshDescriptors(cfg.pmods, reg, steps)
    decreases |rounds|
  {
    steps := [];
    if rounds != [] {
      var done := Iterate(cfg, reg, rounds[0]);
      RoundIsRun(cfg, reg, rounds[0]);
      steps := RoundSteps(cfg, reg, rounds[0]);
      if done.sent.running {
        IterationOk(cfg, reg, rounds[0]);
        var more := RoundsAreRuns(cfg, done.reg, rounds[1..]);
        RunAppend(cfg.pmods, reg, steps, more);
        steps := steps + more;
      }
    }
  }
}
