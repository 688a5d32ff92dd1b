/** One round of the collector's loop as a value: the events of one poll, then responses, removals and additions. */
module Iteration {
  import opened Bytes
  import opened Protocols
  import opened Registry
  import opened RegistryRuns
  import opened Responses
  import Beesure

  datatype Resp = Resp(imei: Option<Imei>, packet: seq<byte>)

  datatype Event =
    | FromBus(resps: seq<Resp>)
    | Incoming(fd: int)
    | Readable(fd: int, input: Input)
    | Stray(fd: int)

  /** What does not change between rounds. `inline` says which packets the server answers by itself. */
  datatype Config = Config(pmods: seq<Proto>, hibernate: bool, inline: (Proto, seq<byte>) -> Option<seq<byte>>)

  datatype Batch = Batch(reg: Registry, tosend: seq<Resp>, toadd: seq<int>, published: seq<Labelled>)

  predicate MsgsOk(msgs: seq<Labelled>) {
    forall m :: m in msgs ==> PacketOk(m.proto, m.packet)
  }

  lemma {:induction false} TakeAllMsgsOk(reg: Registry, fd: int, p: Proto, packets: seq<seq<byte>>)
    requires AllOk(p, packets)
    ensures MsgsOk(TakeAll(reg, fd, p, packets).msgs)
    decreases |packets|
  {
    if packets != [] {
      assert packets[0] in packets;
      TakeAllMsgsOk(TakePacket(reg, fd, p, packets[0]), fd, p, packets[1..]);
    }
  }

  lemma RecvMsgsOk(pmods: seq<Proto>, reg: Registry, fd: int, input: Input)
    ensures var out := Recv(pmods, reg, fd, input); out.msgs.Some? ==> MsgsOk(out.msgs.value)
  {
    if fd in reg.conns && input.Segment? && input.bytes != [] {
      var got := ClientRecv(pmods, reg.conns[fd], input.bytes);
      ClientPacketsOk(pmods, reg.conns[fd], input.bytes);
      if got.conn.stream.Some? {
        TakeAllMsgsOk(reg.(conns := reg.conns[fd := got.conn]), fd, ProtoOf(got.conn.stream.value), got.packets);
      }
    }
  }

  /** One packet: publish it, end the connection if it says goodbye, and queue the answer if there is one. */
  function ConsumeOne(cfg: Config, b: Batch, fd: int, m: Labelled): Batch
    requires PacketOk(m.proto, m.packet)
  {
    var answer := cfg.inline(m.proto, m.packet);
    b.(published := b.published + [m],
       reg := if IsGoodbye(m.proto, m.packet) && cfg.hibernate then Stop(b.reg, fd) else b.reg,
       tosend := b.tosend + (if answer.Some? then [Resp(m.imei, answer.value)] else []))
  }

  function Consume(cfg: Config, b: Batch, fd: int, msgs: seq<Labelled>): Batch
    requires MsgsOk(msgs)
    decreases |msgs|
  {
    if msgs == [] then b
    else
      assert msgs[0] in msgs;
      Consume(cfg, ConsumeOne(cfg, b, fd, msgs[0]), fd, msgs[1..])
  }

  function HandleEvent(cfg: Config, b: Batch, ev: Event): Batch {
    match ev
    case FromBus(resps) => b.(tosend := b.tosend + resps)
    case Incoming(fd) => b.(toadd := b.toadd + [fd])
    case Readable(fd, input) =>
      var out := Recv(cfg.pmods, b.reg, fd, input);
      RecvMsgsOk(cfg.pmods, b.reg, fd, input);
      if out.msgs.None? then b.(reg := Stop(out.reg, fd))
      else Consume(cfg, b.(reg := out.reg), fd, out.msgs.value)
    case Stray(_) => b
  }

  function HandleAll(cfg: Config, b: Batch, events: seq<Event>): Batch
    decreases |events|
  {
    if events == [] then b else HandleAll(cfg, HandleEvent(cfg, b, events[0]), events[1..])
  }

  /** What sending responses has come to; it is not running any more once something has been raised. */
  datatype Sent = Sent(replies: seq<Reply>, outgoing: seq<Labelled>, running: bool)

  const NOTHING_SENT := Sent([], [], true)

  /** A response that was written is broadcast, which fails for a zx303 packet without a protocol byte. */
  function SendOne(reg: Registry, sent: Sent, resp: Resp): Sent {
    var reply := Response(reg, resp.imei, resp.packet);
    var replies := sent.replies + [reply];
    match reply
    case NotConnected => Sent(replies, sent.outgoing, true)
    case Fails(_) => Sent(replies, sent.outgoing, false)
    case Written(_, p, _) =>
      if PacketOk(p, resp.packet) then Sent(replies, sent.outgoing + [Labelled(p, resp.imei, resp.packet)], true)
      else Sent(replies, sent.outgoing, false)
  }

  function SendAll(reg: Registry, sent: Sent, resps: seq<Resp>): Sent
    decreases |resps|
  {
    if resps == [] || !sent.running then sent else SendAll(reg, SendOne(reg, sent, resps[0]), resps[1..])
  }

  function AddAll(reg: Registry, fds: seq<int>): Registry
    decreases |fds|
  {
    if fds == [] then reg else AddAll(Add(reg, fds[0]), fds[1..])
  }

  datatype Done = Done(reg: Registry, published: seq<Labelled>, sent: Sent)

  function Start(reg: Registry): Batch {
    Batch(reg, [], [], [])
  }

  /** If sending raises something, the loop is left at once and nothing is added any more. */
  function Iterate(cfg: Config, reg: Registry, events: seq<Event>): Done {
    var b := HandleAll(cfg, Start(reg), events);
    var sent := SendAll(b.reg, NOTHING_SENT, b.tosend);
    Done(if sent.running then AddAll(b.reg, b.toadd) else b.reg, b.published, sent)
  }

  // ----- the environment -----

  function Accepts(events: seq<Event>): seq<int> {
    if events == [] then []
    else (if events[0].Incoming? then [events[0].fd] else []) + Accepts(events[1..])
  }

  predicate Distinct(fds: seq<int>) {
    forall i, j :: 0 <= i < j < |fds| ==> fds[i] != fds[j]
  }

  /**
    The listening socket is polled before any terminal, so that every descriptor accepted in a round differs
    from all that were served when the round began.
  */
  predicate FreshAccepts(reg: Registry, events: seq<Event>) {
    Distinct(Accepts(events)) && forall fd :: fd in Accepts(events) ==> fd !in reg.conns
  }

  // ----- what a round keeps -----

  /** Nothing is added while events are handled. */
  ghost predicate Shrinks(before: Registry, after: Registry) {
    after.conns.Keys <= before.conns.Keys
  }

  lemma {:induction false} ConsumeOk(cfg: Config, b: Batch, fd: int, msgs: seq<Labelled>)
    requires Invariant(b.reg) && MsgsOk(msgs)
    ensures var after := Consume(cfg, b, fd, msgs);
            && Invariant(after.reg) && Shrinks(b.reg, after.reg)
            && after.toadd == b.toadd && after.published == b.published + msgs
    decreases |msgs|
  {
    if msgs == [] {
      assert b.published + [] == b.published;
    } else {
      assert msgs[0] in msgs;
      StopOk(b.reg, fd);
      ConsumeOk(cfg, ConsumeOne(cfg, b, fd, msgs[0]), fd, msgs[1..]);
      assert msgs == [msgs[0]] + msgs[1..];
      Assoc(b.published, [msgs[0]], msgs[1..]);
    }
  }

  lemma RecvShrinks(pmods: seq<Proto>, reg: Registry, fd: int, input: Input)
    requires Invariant(reg)
    ensures Invariant(Recv(pmods, reg, fd, input).reg) && Shrinks(reg, Recv(pmods, reg, fd, input).reg)
  {
    var out := Recv(pmods, reg, fd, input);
    RecvOk(pmods, reg, fd, input);
    forall f | f in out.reg.conns.Keys ensures f in reg.conns.Keys {
      assert f in out.reg.conns;
      assert f != fd ==> f in reg.conns;
    }
  }

  lemma HandleEventOk(cfg: Config, b: Batch, ev: Event)
    requires Invariant(b.reg)
    ensures var after := HandleEvent(cfg, b, ev);
            && Invariant(after.reg) && Shrinks(b.reg, after.reg)
            && after.toadd == b.toadd + (if ev.Incoming? then [ev.fd] else [])
  {
    match ev
    case Readable(fd, input) =>
      var out := Recv(cfg.pmods, b.reg, fd, input);
      RecvShrinks(cfg.pmods, b.reg, fd, input);
      RecvMsgsOk(cfg.pmods, b.reg, fd, input);
      if out.msgs.None? {
        StopOk(out.reg, fd);
      } else {
        ConsumeOk(cfg, b.(reg := out.reg), fd, out.msgs.value);
      }
    case _ =>
  }

  lemma {:induction false} HandleAllOk(cfg: Config, b: Batch, events: seq<Event>)
    requires Invariant(b.reg)
    ensures var after := HandleAll(cfg, b, events);
            Invariant(after.reg) && Shrinks(b.reg, after.reg) && after.toadd == b.toadd + Accepts(events)
    decreases |events|
  {
    if events == [] {
      assert b.toadd + [] == b.toadd;
    } else {
      HandleEventOk(cfg, b, events[0]);
      HandleAllOk(cfg, HandleEvent(cfg, b, events[0]), events[1..]);
      Assoc(b.toadd, if events[0].Incoming? then [events[0].fd] else [], Accepts(events[1..]));
    }
  }

  lemma {:induction false} AddAllOk(reg: Registry, fds: seq<int>)
    requires Invariant(reg) && Distinct(fds) && forall fd :: fd in fds ==> fd !in reg.conns
    ensures Invariant(AddAll(reg, fds))
    ensures forall fd :: fd in AddAll(reg, fds).conns <==> fd in reg.conns || fd in fds
    decreases |fds|
  {
    if fds != [] {
      AddOk(reg, fds[0]);
      assert fds == [fds[0]] + fds[1..];
      forall fd | fd in fds[1..] ensures fd !in Add(reg, fds[0]).conns {
        var j :| 0 <= j < |fds[1..]| && fds[1..][j] == fd;
        assert fds[j + 1] == fd && fds[0] != fds[j + 1];
      }
      AddAllOk(Add(reg, fds[0]), fds[1..]);
    }
  }

  /** The registrations that a round leaves with the poller, by the two set differences it works with. */
  function PollSet(registered: set<int>, polling: set<int>, served: set<int>, added: set<int>): set<int> {
    (registered - (polling - served)) + ((served + added) - polling)
  }

  /**
    The poller ends up with exactly the served descriptors if and only if no descriptor that is added was still
    being polled for a connection stopped in the same round.
  */
  lemma PollAgreement(polling: set<int>, served: set<int>, added: set<int>)
    requires served <= polling
    ensures PollSet(polling, polling, served, added) == served + added <==> added !! (polling - served)
  {
    if fd :| fd in added && fd in polling - served {
      assert fd !in PollSet(polling, polling, served, added) && fd in served + added;
    }
  }

  /** The descriptors in the registry once those that were accepted have been added. */
  lemma ServedAfter(cfg: Config, reg: Registry, events: seq<Event>)
    requires Invariant(reg) && Distinct(Accepts(events))
    requires var b := HandleAll(cfg, Start(reg), events); forall fd :: fd in Accepts(events) ==> fd !in b.reg.conns
    ensures var b := HandleAll(cfg, Start(reg), events);
            var added := (set fd | fd in Accepts(events));
            && b.toadd == Accepts(events) && b.reg.conns.Keys <= reg.conns.Keys
            && Invariant(b.reg) && Invariant(AddAll(b.reg, b.toadd))
            && AddAll(b.reg, b.toadd).conns.Keys == b.reg.conns.Keys + added
  {
    var b := HandleAll(cfg, Start(reg), events);
    HandleAllOk(cfg, Start(reg), events);
    assert b.toadd == Accepts(events);
    AddAllOk(b.reg, b.toadd);
    var served, added := b.reg.conns.Keys, (set fd | fd in Accepts(events));
    var end := AddAll(b.reg, b.toadd);
    forall fd ensures fd in end.conns.Keys <==> fd in served + added {
      assert fd in end.conns <==> fd in b.reg.conns || fd in b.toadd;
    }
  }

  lemma FreshAreUnused(cfg: Config, reg: Registry, events: seq<Event>)
    requires Invariant(reg) && FreshAccepts(reg, events)
    ensures var b := HandleAll(cfg, Start(reg), events);
            b.reg.conns.Keys <= reg.conns.Keys && forall fd :: fd in Accepts(events) ==> fd !in b.reg.conns
  {
    var b := HandleAll(cfg, Start(reg), events);
    HandleAllOk(cfg, Start(reg), events);
    assert b.reg.conns.Keys <= Start(reg).reg.conns.Keys;
    forall fd | fd in Accepts(events) ensures fd !in b.reg.conns {
      assert fd !in reg.conns.Keys;
    }
  }

  /** What the loop finds when it turns to the poller, and what the poller has to be left with. */
  lemma ReadyToAdd(cfg: Config, reg: Registry, events: seq<Event>)
    requires Invariant(reg) && FreshAccepts(reg, events)
    ensures var b := HandleAll(cfg, Start(reg), events);
            var end := AddAll(b.reg, b.toadd);
            && Distinct(b.toadd) && (forall fd :: fd in b.toadd ==> fd !in b.reg.conns)
            && b.reg.conns.Keys <= reg.conns.Keys && Invariant(b.reg) && Invariant(end)
            && PollSet(reg.conns.Keys, reg.conns.Keys, b.reg.conns.Keys, end.conns.Keys) == end.conns.Keys
  {
    var b := HandleAll(cfg, Start(reg), events);
    FreshAreUnused(cfg, reg, events);
    ServedAfter(cfg, reg, events);
    var added := (set fd | fd in Accepts(events));
    assert added !! reg.conns.Keys;
    PollServed(reg.conns.Keys, b.reg.conns.Keys, added);
  }

  lemma PollServed(polling: set<int>, served: set<int>, added: set<int>)
    requires served <= polling && added !! polling
    ensures PollSet(polling, polling, served, served + added) == served + added
    ensures PollSet(polling, polling, served, added) == served + added
  {
  }

  /** A round keeps the invariant, and unless it is the last one the poller agrees with the registry after it. */
  lemma IterationOk(cfg: Config, reg: Registry, events: seq<Event>)
    requires Invariant(reg) && FreshAccepts(reg, events)
    ensures Invariant(Iterate(cfg, reg, events).reg)
    ensures var b, done := HandleAll(cfg, Start(reg), events), Iterate(cfg, reg, events);
            var served, added := b.reg.conns.Keys, (set fd | fd in Accepts(events));
            && served <= reg.conns.Keys
            && (done.sent.running ==>
                  && done.reg.conns.Keys == served + added
                  && PollSet(reg.conns.Keys, reg.conns.Keys, served, added) == done.reg.conns.Keys)
  {
    var b := HandleAll(cfg, Start(reg), events);
    FreshAreUnused(cfg, reg, events);
    ServedAfter(cfg, reg, events);
    var added := (set fd | fd in Accepts(events));
    assert added !! reg.conns.Keys;
    PollServed(reg.conns.Keys, b.reg.conns.Keys, added);
  }

  /**
    Why the listener has to come first: if accepted descriptors are merely unused when they are added, the poller
    agrees with the registry after the round if and only if none of them was already served when it began.
  */
  lemma PollExact(cfg: Config, reg: Registry, events: seq<Event>)
    requires Invariant(reg) && Distinct(Accepts(events))
    requires var b := HandleAll(cfg, Start(reg), events); forall fd :: fd in Accepts(events) ==> fd !in b.reg.conns
    requires Iterate(cfg, reg, events).sent.running
    ensures var served, added := HandleAll(cfg, Start(reg), events).reg.conns.Keys, (set fd | fd in Accepts(events));
            PollSet(reg.conns.Keys, reg.conns.Keys, served, added) == Iterate(cfg, reg, events).reg.conns.Keys
            <==> forall fd :: fd in Accepts(events) ==> fd !in reg.conns
  {
    ServedAfter(cfg, reg, events);
    var served, added := HandleAll(cfg, Start(reg), events).reg.conns.Keys, (set fd | fd in Accepts(events));
    PollAgreement(reg.conns.Keys, served, added);
    assert added !! (reg.conns.Keys - served) <==> forall fd :: fd in added ==> fd !in reg.conns;
  }

  // ----- responses -----

  /** A response to `i` that the collector can both write and broadcast. */
  predicate ReplyOk(i: Imei, packet: seq<byte>) {
    if |i| == 10 then Framable(i, packet) else |packet| >= 2
  }

  predicate Sendable(reg: Registry, resp: Resp) {
    resp.imei.Some? && resp.imei.value in reg.byImei ==> ReplyOk(resp.imei.value, resp.packet)
  }

  /** The first response that the collector does not survive, or the number of responses. */
  function FirstRefused(reg: Registry, resps: seq<Resp>): (n: nat)
    ensures n <= |resps|
  {
    if resps == [] || !Sendable(reg, resps[0]) then 0 else 1 + FirstRefused(reg, resps[1..])
  }

  lemma {:induction false} FirstRefusedIsFirst(reg: Registry, resps: seq<Resp>)
    ensures var n := FirstRefused(reg, resps);
            && (forall k :: 0 <= k < n ==> Sendable(reg, resps[k]))
            && (n < |resps| ==> !Sendable(reg, resps[n]))
    decreases |resps|
  {
    if resps != [] && Sendable(reg, resps[0]) {
      FirstRefusedIsFirst(reg, resps[1..]);
    }
  }

  function Replies(reg: Registry, resps: seq<Resp>): (replies: seq<Reply>)
    ensures |replies| == |resps|
    ensures forall k :: 0 <= k < |resps| ==> replies[k] == Response(reg, resps[k].imei, resps[k].packet)
  {
    if resps == [] then [] else [Response(reg, resps[0].imei, resps[0].packet)] + Replies(reg, resps[1..])
  }

  /** What is broadcast about a response: nothing if nobody goes by its imei. */
  function Echo(reg: Registry, resp: Resp): seq<Labelled> {
    match Response(reg, resp.imei, resp.packet)
    case Written(_, p, _) => [Labelled(p, resp.imei, resp.packet)]
    case _ => []
  }

  function Echoes(reg: Registry, resps: seq<Resp>): seq<Labelled> {
    if resps == [] then [] else Echo(reg, resps[0]) + Echoes(reg, resps[1..])
  }

  lemma SendOneExact(reg: Registry, sent: Sent, resp: Resp)
    requires Invariant(reg)
    ensures var after := SendOne(reg, sent, resp);
            && (after.running <==> Sendable(reg, resp))
            && after.replies == sent.replies + [Response(reg, resp.imei, resp.packet)]
            && after.outgoing == sent.outgoing + (if Sendable(reg, resp) then Echo(reg, resp) else [])
  {
    if resp.imei.Some? {
      ResponseExact(reg, resp.imei.value, resp.packet);
    }
    assert sent.outgoing + [] == sent.outgoing;
  }

  /** The responses before the first that is refused. */
  function Served(reg: Registry, resps: seq<Resp>): seq<Resp> {
    resps[..FirstRefused(reg, resps)]
  }

  /** These and the refused one, if there is one. */
  function Tried(reg: Registry, resps: seq<Resp>): seq<Resp> {
    var n := FirstRefused(reg, resps);
    if n == |resps| then resps else resps[..n + 1]
  }

  lemma ServedStep(reg: Registry, resp: Resp, more: seq<Resp>)
    ensures if Sendable(reg, resp)
            then Served(reg, [resp] + more) == [resp] + Served(reg, more)
                 && Tried(reg, [resp] + more) == [resp] + Tried(reg, more)
            else Served(reg, [resp] + more) == [] && Tried(reg, [resp] + more) == [resp]
  {
    var resps := [resp] + more;
    assert resps[0] == resp && resps[1..] == more;
  }

  lemma RepliesCons(reg: Registry, resp: Resp, more: seq<Resp>)
    ensures Replies(reg, [resp] + more) == [Response(reg, resp.imei, resp.packet)] + Replies(reg, more)
    ensures Echoes(reg, [resp] + more) == Echo(reg, resp) + Echoes(reg, more)
  {
    var resps := [resp] + more;
    assert resps[0] == resp && resps[1..] == more;
  }

  /** What sending comes to: the replies of those tried and the echoes of those served. */
  function SentFor(reg: Registry, sent: Sent, resps: seq<Resp>): Sent {
    Sent(sent.replies + Replies(reg, Tried(reg, resps)), sent.outgoing + Echoes(reg, Served(reg, resps)),
         FirstRefused(reg, resps) == |resps|)
  }

  lemma SentForStep(reg: Registry, sent: Sent, resp: Resp, more: seq<Resp>)
    requires Invariant(reg)
    ensures var now := SendOne(reg, sent, resp);
            SentFor(reg, sent, [resp] + more) == if now.running then SentFor(reg, now, more) else now
  {
    var now, reply := SendOne(reg, sent, resp), Response(reg, resp.imei, resp.packet);
    SendOneExact(reg, sent, resp);
    ServedStep(reg, resp, more);
    assert ([resp] + more)[0] == resp && ([resp] + more)[1..] == more;
    if Sendable(reg, resp) {
      RepliesCons(reg, resp, Tried(reg, more));
      RepliesCons(reg, resp, Served(reg, more));
      Assoc(sent.replies, [reply], Replies(reg, Tried(reg, more)));
      Assoc(sent.outgoing, Echo(reg, resp), Echoes(reg, Served(reg, more)));
    } else {
      assert [resp] + [] == [resp];
      RepliesCons(reg, resp, []);
    }
  }

  /** Responses are sent and broadcast in order up to the first that is refused; that one ends the loop. */
  lemma {:induction false} SendAllExact(reg: Registry, sent: Sent, resps: seq<Resp>)
    requires Invariant(reg) && sent.running
    ensures SendAll(reg, sent, resps) == SentFor(reg, sent, resps)
    decreases |resps|
  {
    if resps == [] {
      assert sent.replies + [] == sent.replies && sent.outgoing + [] == sent.outgoing;
    } else {
      var now := SendOne(reg, sent, resps[0]);
      assert resps == [resps[0]] + resps[1..];
      SentForStep(reg, sent, resps[0], resps[1..]);
      if now.running {
        SendAllExact(reg, now, resps[1..]);
      }
    }
  }

  lemma SendingSurvives(reg: Registry, resps: seq<Resp>)
    requires Invariant(reg)
    ensures var sent := SendAll(reg, NOTHING_SENT, resps);
            && (sent.running <==> forall r :: r in resps ==> Sendable(reg, r))
            && sent.outgoing == Echoes(reg, Served(reg, resps))
  {
    SendAllExact(reg, NOTHING_SENT, resps);
    FirstRefusedIsFirst(reg, resps);
    var n := FirstRefused(reg, resps);
    if n < |resps| {
      assert resps[n] in resps;
    }
  }

  /** The collector survives a round if and only if it can frame and broadcast every response queued in it. */
  lemma RoundSurvives(cfg: Config, reg: Registry, events: seq<Event>)
    requires Invariant(reg)
    ensures var b := HandleAll(cfg, Start(reg), events);
            Iterate(cfg, reg, events).sent.running <==> forall r :: r in b.tosend ==> Sendable(b.reg, r)
  {
    HandleAllOk(cfg, Start(reg), events);
    SendingSurvives(HandleAll(cfg, Start(reg), events).reg, HandleAll(cfg, Start(reg), events).tosend);
  }

  /**
    At the end of a round's events each queued response, up to the first that is refused, is written to the last
    login with its imei if it can be framed, and fails on it if not; without such a login it is ignored.
  */
  lemma DeliveriesReachOwners(cfg: Config, reg: Registry, events: seq<Event>, k: nat, i: Imei, s: nat)
    requires Invariant(reg)
    requires var b := HandleAll(cfg, Start(reg), events); k < |b.tosend| && b.tosend[k].imei == Some(i)
    ensures var b, replies := HandleAll(cfg, Start(reg), events), Iterate(cfg, reg, events).sent.replies;
            var packet := b.tosend[k].packet;
            && (k < |replies| <==> k <= FirstRefused(b.reg, b.tosend))
            && (k < |replies| ==>
                  && (replies[k].Written? && replies[k].to.serial == s <==>
                      LoggedInNow(b.reg.log, i, s) && Framable(i, packet))
                  && (replies[k].Fails? && replies[k].to.serial == s <==>
                      LoggedInNow(b.reg.log, i, s) && !Framable(i, packet))
                  && (replies[k].NotConnected? ==> !LoggedInNow(b.reg.log, i, s)))
  {
    var b := HandleAll(cfg, Start(reg), events);
    HandleAllOk(cfg, Start(reg), events);
    SendAllExact(b.reg, NOTHING_SENT, b.tosend);
    assert Iterate(cfg, reg, events).sent.replies == Replies(b.reg, Tried(b.reg, b.tosend));
    OwnerMeaning(b.reg.log, i, s);
    ResponseExact(b.reg, i, b.tosend[k].packet);
  }

  /** A round broadcasts, after what its terminals sent, every response that was written, in order. */
  lemma OutgoingExact(cfg: Config, reg: Registry, events: seq<Event>)
    requires Invariant(reg)
    ensures var b := HandleAll(cfg, Start(reg), events);
            Iterate(cfg, reg, events).sent.outgoing == Echoes(b.reg, Served(b.reg, b.tosend))
  {
    HandleAllOk(cfg, Start(reg), events);
    SendingSurvives(HandleAll(cfg, Start(reg), events).reg, HandleAll(cfg, Start(reg), events).tosend);
  }

  // ----- the server's own answers -----

  /** Answers are built as the protocol's packets are: with a header, or with a length and a protocol byte. */
  predicate AnswerOk(p: Proto, answer: seq<byte>) {
    match p
    case Zx => |answer| >= 2
    case Bs => Beesure.FrameStart(answer).offset == 0
  }

  ghost predicate InlineOk(cfg: Config) {
    forall p, packet :: cfg.inline(p, packet).Some? ==> AnswerOk(p, cfg.inline(p, packet).value)
  }

  /** A label is an imei of the protocol of the packet that it is on. */
  predicate LabelOk(m: Labelled) {
    m.imei.Some? ==> ImeiOk(m.proto, m.imei.value)
  }

  predicate LabelsOk(msgs: seq<Labelled>) {
    forall m :: m in msgs ==> LabelOk(m)
  }

  lemma {:induction false} LabelsFit(p: Proto, imei: Option<Imei>, packets: seq<seq<byte>>)
    requires AllOk(p, packets) && (imei.Some? ==> ImeiOk(p, imei.value))
    ensures LabelsOk(Label(p, imei, packets))
    decreases |packets|
  {
    if packets != [] {
      assert packets[0] in packets;
      LabelsFit(p, Named(p, imei, packets[0]), packets[1..]);
    }
  }

  lemma RecvLabelsOk(pmods: seq<Proto>, reg: Registry, fd: int, input: Input)
    requires Invariant(reg)
    ensures var out := Recv(pmods, reg, fd, input); out.msgs.Some? ==> LabelsOk(out.msgs.value)
  {
    var out := Recv(pmods, reg, fd, input);
    RecvOk(pmods, reg, fd, input);
    if out.msgs.Some? {
      var c := out.reg.conns[fd];
      assert ConnOk(c);
      if c.stream.Some? {
        LabelsFit(ProtoOf(c.stream.value), None, PacketsOf(c.trace.delivered));
      }
      assert forall m :: m in out.msgs.value ==> m in c.trace.delivered;
    }
  }

  /** A response that is accepted whoever is connected. */
  predicate AnswerFits(r: Resp) {
    r.imei.Some? ==> ReplyOk(r.imei.value, r.packet)
  }

  /** All that is queued came from the bus or is a fitting answer, and nothing from the bus is missing. */
  ghost predicate FromBusOrFits(tosend: seq<Resp>, bus: seq<Resp>) {
    (forall r :: r in tosend ==> r in bus || AnswerFits(r)) && (forall r :: r in bus ==> r in tosend)
  }

  lemma {:induction false} ConsumeFits(cfg: Config, b: Batch, fd: int, msgs: seq<Labelled>, bus: seq<Resp>)
    requires InlineOk(cfg) && MsgsOk(msgs) && LabelsOk(msgs) && FromBusOrFits(b.tosend, bus)
    ensures FromBusOrFits(Consume(cfg, b, fd, msgs).tosend, bus)
    decreases |msgs|
  {
    if msgs != [] {
      var m := msgs[0];
      assert m in msgs && LabelOk(m);
      ConsumeFits(cfg, ConsumeOne(cfg, b, fd, m), fd, msgs[1..], bus);
    }
  }

  function BusResps(events: seq<Event>): seq<Resp> {
    if events == [] then [] else (if events[0].FromBus? then events[0].resps else []) + BusResps(events[1..])
  }

  lemma {:induction false} HandleAllFits(cfg: Config, b: Batch, events: seq<Event>, bus: seq<Resp>)
    requires Invariant(b.reg) && InlineOk(cfg) && FromBusOrFits(b.tosend, bus)
    ensures FromBusOrFits(HandleAll(cfg, b, events).tosend, bus + BusResps(events))
    decreases |events|
  {
    if events == [] {
      assert bus + [] == bus;
    } else {
      var ev, now := events[0], HandleEvent(cfg, b, events[0]);
      var more := if ev.FromBus? then ev.resps else [];
      HandleEventFits(cfg, b, ev, bus);
      HandleEventOk(cfg, b, ev);
      HandleAllFits(cfg, now, events[1..], bus + more);
      Assoc(bus, more, BusResps(events[1..]));
    }
  }

  lemma HandleEventFits(cfg: Config, b: Batch, ev: Event, bus: seq<Resp>)
    requires Invariant(b.reg) && InlineOk(cfg) && FromBusOrFits(b.tosend, bus)
    ensures FromBusOrFits(HandleEvent(cfg, b, ev).tosend, bus + if ev.FromBus? then ev.resps else [])
  {
    assert bus + [] == bus;
    match ev
    case Readable(fd, input) =>
      var out := Recv(cfg.pmods, b.reg, fd, input);
      RecvMsgsOk(cfg.pmods, b.reg, fd, input);
      RecvLabelsOk(cfg.pmods, b.reg, fd, input);
      if out.msgs.Some? {
        ConsumeFits(cfg, b.(reg := out.reg), fd, out.msgs.value, bus);
      }
    case _ =>
  }

  /**
    Whatever terminals send, the collector's own answers never stop it, not even when the connection that asked
    has lost its imei to another by the time they are sent; a round is survived if and only if every response
    from the bus is accepted.
  */
  lemma OnlyBusCanStop(cfg: Config, reg: Registry, events: seq<Event>)
    requires Invariant(reg) && InlineOk(cfg)
    ensures var b := HandleAll(cfg, Start(reg), events);
            Iterate(cfg, reg, events).sent.running <==> forall r :: r in BusResps(events) ==> Sendable(b.reg, r)
  {
    var b := HandleAll(cfg, Start(reg), events);
    RoundSurvives(cfg, reg, events);
    HandleAllFits(cfg, Start(reg), events, []);
    assert [] + BusResps(events) == BusResps(events);
    assert forall r :: r in b.tosend && AnswerFits(r) ==> Sendable(b.reg, r);
  }

  // ----- all rounds -----

  /** Rounds until there are no more events, or until one of them is not survived. */
  function RunRounds(cfg: Config, reg: Registry, rounds: seq<seq<Event>>): Registry
    decreases |rounds|
  {
    if rounds == [] then reg
    else
      var done := Iterate(cfg, reg, rounds[0]);
      if done.sent.running then RunRounds(cfg, done.reg, rounds[1..]) else done.reg
  }

  predicate AlwaysFresh(cfg: Config, reg: Registry, rounds: seq<seq<Event>>)
    decreases |rounds|
  {
    rounds == [] ||
    var done := Iterate(cfg, reg, rounds[0]);
    FreshAccepts(reg, rounds[0]) && (done.sent.running ==> AlwaysFresh(cfg, done.reg, rounds[1..]))
  }

  lemma {:induction false} RoundsKeepInvariant(cfg: Config, reg: Registry, rounds: seq<seq<Event>>)
    requires Invariant(reg) && AlwaysFresh(cfg, reg, rounds)
    ensures Invariant(RunRounds(cfg, reg, rounds))
    decreases |rounds|
  {
    if rounds != [] {
      IterationOk(cfg, reg, rounds[0]);
      if Iterate(cfg, reg, rounds[0]).sent.running {
        RoundsKeepInvariant(cfg, Iterate(cfg, reg, rounds[0]).reg, rounds[1..]);
      }
    }
  }
}
