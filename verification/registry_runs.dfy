/** What holds in every reachable state of the registry, whatever the connections send and in whatever order. */
module RegistryRuns {
  import opened Bytes
  import opened Protocols
  import opened Registry
  import Zx303
  import Zx303Framing
  import Beesure
  import BeesureFraming

  function PacketsOf(msgs: seq<Labelled>): (packets: seq<seq<byte>>)
    ensures |packets| == |msgs|
    ensures forall i :: 0 <= i < |msgs| ==> packets[i] == msgs[i].packet
  {
    if msgs == [] then [] else [msgs[0].packet] + PacketsOf(msgs[1..])
  }

  lemma PacketsOfAppend(a: seq<Labelled>, b: seq<Labelled>)
    ensures PacketsOf(a + b) == PacketsOf(a) + PacketsOf(b)
  {
  }

  /** The name a connection goes by once a packet has been looked at: the first that identifies it stays. */
  function Named(p: Proto, imei: Option<Imei>, packet: seq<byte>): Option<Imei>
    requires PacketOk(p, packet)
  {
    if imei.Some? then imei else ImeiFromPacket(p, packet)
  }

  function NameAfter(p: Proto, imei: Option<Imei>, packets: seq<seq<byte>>): Option<Imei>
    requires AllOk(p, packets)
    decreases |packets|
  {
    if packets == [] then imei
    else
      assert packets[0] in packets;
      NameAfter(p, Named(p, imei, packets[0]), packets[1..])
  }

  /** The packets as they ought to be published. */
  function Label(p: Proto, imei: Option<Imei>, packets: seq<seq<byte>>): (msgs: seq<Labelled>)
    requires AllOk(p, packets)
    ensures |msgs| == |packets|
    decreases |packets|
  {
    if packets == [] then []
    else
      assert packets[0] in packets;
      var name := Named(p, imei, packets[0]);
      [Labelled(p, name, packets[0])] + Label(p, name, packets[1..])
  }

  /** Labels are one and the same imei from the first identifying packet on. */
  lemma {:induction false} LabelsStick(p: Proto, imei: Option<Imei>, packets: seq<seq<byte>>, j: nat, k: nat)
    requires AllOk(p, packets) && j <= k < |packets|
    ensures var msgs := Label(p, imei, packets);
            && msgs[k].packet == packets[k]
            && (imei.Some? ==> msgs[k].imei == imei)
            && (msgs[j].imei.Some? ==> msgs[k].imei == msgs[j].imei)
    decreases |packets|
  {
    var name := Named(p, imei, packets[0]);
    if k > 0 {
      LabelsStick(p, name, packets[1..], if j > 0 then j - 1 else 0, k - 1);
    }
  }

  predicate Identifies(p: Proto, packet: seq<byte>)
    requires PacketOk(p, packet)
  {
    ImeiFromPacket(p, packet).Some?
  }

  /** Before it they are none, and it is that packet's own imei that sticks. */
  lemma {:induction false} LabelsStart(p: Proto, packets: seq<seq<byte>>, k: nat)
    requires AllOk(p, packets) && k < |packets|
    requires forall m :: 0 <= m < k ==> !Identifies(p, packets[m])
    ensures Label(p, None, packets)[k].imei == ImeiFromPacket(p, packets[k])
    decreases |packets|
  {
    if k > 0 {
      assert !Identifies(p, packets[0]);
      LabelsStart(p, packets[1..], k - 1);
    }
  }

  lemma {:induction false} LabelAppend(p: Proto, imei: Option<Imei>, a: seq<seq<byte>>, b: seq<seq<byte>>)
    requires AllOk(p, a) && AllOk(p, b)
    ensures AllOk(p, a + b)
    ensures NameAfter(p, imei, a + b) == NameAfter(p, NameAfter(p, imei, a), b)
    ensures Label(p, imei, a + b) == Label(p, imei, a) + Label(p, NameAfter(p, imei, a), b)
    decreases |a|
  {
    if a == [] {
      assert a + b == b;
    } else {
      assert a[0] in a;
      var name := Named(p, imei, a[0]);
      LabelAppend(p, name, a[1..], b);
      assert (a + b)[1..] == a[1..] + b;
      Assoc([Labelled(p, name, a[0])], Label(p, name, a[1..]), Label(p, NameAfter(p, imei, a), b));
    }
  }

  lemma {:induction false} LabelKeepsPackets(p: Proto, imei: Option<Imei>, packets: seq<seq<byte>>)
    requires AllOk(p, packets)
    ensures PacketsOf(Label(p, imei, packets)) == packets
    decreases |packets|
  {
    if packets != [] {
      LabelKeepsPackets(p, Named(p, imei, packets[0]), packets[1..]);
    }
  }

  // ----- one connection -----

  /**
    End to end, for one connection: what was delivered is labelled as it ought to be, and as long as nothing was
    dropped it is the packets of a single pass over everything received since the connection was recognised.
  */
  ghost predicate ConnOk(c: Conn) {
    match c.stream
    case None => c.imei == None && c.trace == NO_TRACE
    case Some(s) =>
      var p, packets := ProtoOf(s), PacketsOf(c.trace.delivered);
      && AllOk(p, packets)
      && c.trace.delivered == Label(p, None, packets)
      && c.imei == NameAfter(p, None, packets)
      && (!c.trace.overflowed ==> s == StreamAfter(p, c.trace.history) && packets == AllPackets(p, c.trace.history))
  }

  /** The state between reading from the socket and handing out the packets. */
  ghost predicate Between(before: Conn, got: ClientGot) {
    && got.conn.stream.Some? && got.conn.imei == before.imei && got.conn.serial == before.serial
    && got.conn.trace.delivered == before.trace.delivered
    && var p, sent := ProtoOf(got.conn.stream.value), PacketsOf(before.trace.delivered);
       && AllOk(p, got.packets) && AllOk(p, sent)
       && before.trace.delivered == Label(p, None, sent)
       && before.imei == NameAfter(p, None, sent)
       && (!got.conn.trace.overflowed ==>
             && got.conn.stream.value == StreamAfter(p, got.conn.trace.history)
             && sent + got.packets == AllPackets(p, got.conn.trace.history))
  }

  lemma ClientRecvOk(pmods: seq<Proto>, c: Conn, segment: seq<byte>)
    requires ConnOk(c)
    ensures var got := ClientRecv(pmods, c, segment);
            got.conn.stream.Some? ==> Between(c, got)
  {
    var got := ClientRecv(pmods, c, segment);
    ClientPacketsOk(pmods, c, segment);
    if got.conn.stream.Some? {
      var p := ProtoOf(got.conn.stream.value);
      if c.stream.None? {
        NothingYet(p);
      }
      var s := if c.stream.None? then NewStream(p) else c.stream.value;
      if !got.conn.trace.overflowed {
        assert s == StreamAfter(p, c.trace.history);
        StreamExtends(p, c.trace.history, segment);
      }
    }
  }

  lemma DeliveredOk(before: Conn, got: ClientGot, after: Conn)
    requires Between(before, got)
    requires var p := ProtoOf(got.conn.stream.value);
             after == got.conn.(imei := NameAfter(p, before.imei, got.packets),
                                trace := got.conn.trace.(delivered := before.trace.delivered
                                                                      + Label(p, before.imei, got.packets)))
    ensures ConnOk(after)
  {
    var p, sent := ProtoOf(got.conn.stream.value), PacketsOf(before.trace.delivered);
    LabelAppend(p, None, sent, got.packets);
    PacketsOfAppend(before.trace.delivered, Label(p, before.imei, got.packets));
    LabelKeepsPackets(p, before.imei, got.packets);
  }

  // ----- a connection served alone -----

  /** One segment through a connection, with its packets labelled and put on record. */
  function ServeOne(pmods: seq<Proto>, c: Conn, segment: seq<byte>): Conn
  {
    var got := ClientRecv(pmods, c, segment);
    ClientPacketsOk(pmods, c, segment);
    if got.conn.stream.None? then c
    else
      var p := ProtoOf(got.conn.stream.value);
      got.conn.(imei := NameAfter(p, c.imei, got.packets),
                trace := got.conn.trace.(delivered := c.trace.delivered + Label(p, c.imei, got.packets)))
  }

  function Serve(pmods: seq<Proto>, c: Conn, segments: seq<seq<byte>>): Conn
    decreases |segments|
  {
    if segments == [] then c else Serve(pmods, ServeOne(pmods, c, segments[0]), segments[1..])
  }

  /** The segments from the first recognised one on. */
  function FromRecognised(pmods: seq<Proto>, segments: seq<seq<byte>>): (kept: seq<seq<byte>>)
    ensures kept != [] ==> ProbePmod(pmods, kept[0]).Some?
  {
    if segments == [] || ProbePmod(pmods, segments[0]).Some? then segments
    else FromRecognised(pmods, segments[1..])
  }

  /** No segment overflows the buffer of a deframer that holds what is left of `history`. */
  predicate NoneOverflows(p: Proto, history: seq<byte>, segments: seq<seq<byte>>)
    decreases |segments|
  {
    segments == [] ||
    (!Overflows(StreamAfter(p, history), segments[0]) && NoneOverflows(p, history + segments[0], segments[1..]))
  }

  lemma ServeOneOk(pmods: seq<Proto>, c: Conn, segment: seq<byte>)
    requires ConnOk(c)
    ensures ConnOk(ServeOne(pmods, c, segment))
  {
    var got := ClientRecv(pmods, c, segment);
    ClientPacketsOk(pmods, c, segment);
    ClientRecvOk(pmods, c, segment);
    if got.conn.stream.Some? {
      DeliveredOk(c, got, ServeOne(pmods, c, segment));
    }
  }

  lemma {:induction false} ServeRecognised(pmods: seq<Proto>, c: Conn, segments: seq<seq<byte>>)
    requires ConnOk(c) && c.stream.Some? && !c.trace.overflowed
    requires NoneOverflows(ProtoOf(c.stream.value), c.trace.history, segments)
    ensures var end := Serve(pmods, c, segments);
            && ConnOk(end) && end.stream.Some? && ProtoOf(end.stream.value) == ProtoOf(c.stream.value)
            && !end.trace.overflowed && end.trace.history == c.trace.history + Flatten(segments)
    decreases |segments|
  {
    if segments == [] {
      assert c.trace.history + [] == c.trace.history;
    } else {
      var next := ServeOne(pmods, c, segments[0]);
      ServeOneOk(pmods, c, segments[0]);
      ClientPacketsOk(pmods, c, segments[0]);
      ServeRecognised(pmods, next, segments[1..]);
      Assoc(c.trace.history, segments[0], Flatten(segments[1..]));
    }
  }

  /** A connection that has just been accepted. */
  function Fresh(serial: nat): Conn {
    Conn(serial, None, None, NO_TRACE)
  }

  // ----- with overflows -----

  /** A deframer's run over segments, of which only the packets matter here. */
  function StreamRun(s: Stream, segments: seq<seq<byte>>): Got {
    match s
    case ZxStream(buffer) =>
      var run := Zx303.Run(buffer, segments);
      Got(Zx303Framing.Packets(run.msgs), ZxStream(run.buffer))
    case BsStream(st) =>
      var run := Beesure.Run(st, segments);
      Got(BeesureFraming.Packets(run.msgs), BsStream(run.state))
  }

  lemma StreamRunStep(s: Stream, segments: seq<seq<byte>>)
    requires segments != []
    ensures var now := StreamRecv(s, segments[0]);
            var later := StreamRun(now.stream, segments[1..]);
            StreamRun(s, segments) == Got(now.packets + later.packets, later.stream)
  {
    match s
    case ZxStream(buffer) =>
      var now := Zx303.Receive(buffer, segments[0]);
      Zx303Framing.PacketsAppend(now.msgs, Zx303.Run(now.buffer, segments[1..]).msgs);
    case BsStream(st) =>
      var now := Beesure.Receive(st, segments[0]);
      BeesureFraming.PacketsAppend(now.msgs, Beesure.Run(now.state, segments[1..]).msgs);
  }

  /** A recognised connection delivers, labelled, the packets of its deframer's run, whatever happens in that run. */
  lemma {:induction false} ServeIsRun(pmods: seq<Proto>, c: Conn, segments: seq<seq<byte>>)
    requires c.stream.Some?
    ensures var end, run, p := Serve(pmods, c, segments), StreamRun(c.stream.value, segments), ProtoOf(c.stream.value);
            && AllOk(p, run.packets) && end.stream == Some(run.stream)
            && end.trace.delivered == c.trace.delivered + Label(p, c.imei, run.packets)
    decreases |segments|
  {
    var p := ProtoOf(c.stream.value);
    if segments == [] {
      assert c.trace.delivered + [] == c.trace.delivered;
    } else {
      var next, got := ServeOne(pmods, c, segments[0]), StreamRecv(c.stream.value, segments[0]);
      ClientPacketsOk(pmods, c, segments[0]);
      StreamRunStep(c.stream.value, segments);
      ServeIsRun(pmods, next, segments[1..]);
      var later := StreamRun(got.stream, segments[1..]);
      LabelAppend(p, c.imei, got.packets, later.packets);
      Assoc(c.trace.delivered, Label(p, c.imei, got.packets), Label(p, next.imei, later.packets));
    }
  }

  /** What is delivered, overflows or not: the labelled packets of the run over the segments that count. */
  ghost predicate DeliversRun(pmods: seq<Proto>, segments: seq<seq<byte>>, end: Conn) {
    var kept := FromRecognised(pmods, segments);
    if kept == [] then end.stream == None && end.trace.delivered == []
    else
      var p := ProbePmod(pmods, kept[0]).value;
      var run := StreamRun(NewStream(p), kept);
      && end.stream == Some(run.stream) && AllOk(p, run.packets)
      && end.trace.delivered == Label(p, None, run.packets)
  }

  /** From the first recognised segment on a connection is one run of the deframer that recognised it. */
  lemma {:induction false} EndToEndRun(pmods: seq<Proto>, serial: nat, segments: seq<seq<byte>>)
    ensures DeliversRun(pmods, segments, Serve(pmods, Fresh(serial), segments))
    decreases |segments|
  {
    if segments != [] {
      if ProbePmod(pmods, segments[0]).Some? {
        RecognisedRun(pmods, serial, segments);
      } else {
        assert ServeOne(pmods, Fresh(serial), segments[0]) == Fresh(serial);
        EndToEndRun(pmods, serial, segments[1..]);
      }
    }
  }

  lemma RecognisedRun(pmods: seq<Proto>, serial: nat, segments: seq<seq<byte>>)
    requires segments != [] && ProbePmod(pmods, segments[0]).Some?
    ensures DeliversRun(pmods, segments, Serve(pmods, Fresh(serial), segments))
  {
    var p := ProbePmod(pmods, segments[0]).value;
    var known := Fresh(serial).(stream := Some(NewStream(p)));
    KnownFromTheStart(pmods, serial, segments[0], p);
    SameStart(pmods, Fresh(serial), known, segments);
    NewIsRun(pmods, known, segments);
    assert FromRecognised(pmods, segments) == segments;
    assert ProtoOf(NewStream(p)) == p;
  }

  lemma SameStart(pmods: seq<Proto>, c: Conn, d: Conn, segments: seq<seq<byte>>)
    requires segments != [] && ServeOne(pmods, c, segments[0]) == ServeOne(pmods, d, segments[0])
    ensures Serve(pmods, c, segments) == Serve(pmods, d, segments)
  {
  }

  /** The same for a connection that has delivered nothing yet. */
  lemma NewIsRun(pmods: seq<Proto>, c: Conn, segments: seq<seq<byte>>)
    requires c.stream.Some? && c.imei == None && c.trace == NO_TRACE
    ensures var end, run, p := Serve(pmods, c, segments), StreamRun(c.stream.value, segments), ProtoOf(c.stream.value);
            && AllOk(p, run.packets) && end.stream == Some(run.stream)
            && end.trace.delivered == Label(p, None, run.packets)
  {
    ServeIsRun(pmods, c, segments);
    var labelled := Label(ProtoOf(c.stream.value), None, StreamRun(c.stream.value, segments).packets);
    assert [] + labelled == labelled;
  }

  lemma KnownFromTheStart(pmods: seq<Proto>, serial: nat, segment: seq<byte>, p: Proto)
    requires ProbePmod(pmods, segment) == Some(p)
    ensures ServeOne(pmods, Fresh(serial), segment) ==
            ServeOne(pmods, Fresh(serial).(stream := Some(NewStream(p))), segment)
  {
    assert ProtoOf(NewStream(p)) == p;
  }

  // ----- without overflows -----

  /** What has to come out of a connection that got `segments`, of which only the recognised ones on count. */
  ghost predicate Delivers(pmods: seq<Proto>, segments: seq<seq<byte>>, end: Conn) {
    var kept := FromRecognised(pmods, segments);
    kept != [] ==>
      var p, history := ProbePmod(pmods, kept[0]).value, Flatten(kept);
      && end.stream == Some(StreamAfter(p, history))
      && AllOk(p, AllPackets(p, history))
      && end.trace.delivered == Label(p, None, AllPackets(p, history))
  }

  /** From the first recognised segment on nothing overflows. */
  predicate StaysWithin(pmods: seq<Proto>, segments: seq<seq<byte>>) {
    var kept := FromRecognised(pmods, segments);
    kept != [] ==> NoneOverflows(ProbePmod(pmods, kept[0]).value, [], kept)
  }

  /**
    End to end: from the first recognised segment on, a connection keeps the protocol that recognised it, and
    as long as nothing overflows it delivers, labelled, the packets of one pass over all bytes from there on.
  */
  lemma {:induction false} EndToEnd(pmods: seq<Proto>, serial: nat, segments: seq<seq<byte>>)
    requires StaysWithin(pmods, segments)
    ensures Delivers(pmods, segments, Serve(pmods, Fresh(serial), segments))
    ensures FromRecognised(pmods, segments) == [] ==> Serve(pmods, Fresh(serial), segments) == Fresh(serial)
    decreases |segments|
  {
    if segments != [] {
      if ProbePmod(pmods, segments[0]).Some? {
        RecognisedAtOnce(pmods, serial, segments);
      } else {
        EndToEnd(pmods, serial, segments[1..]);
      }
    }
  }

  lemma FirstSegment(pmods: seq<Proto>, serial: nat, s: seq<byte>)
    requires ProbePmod(pmods, s).Some?
    ensures var p, c := ProbePmod(pmods, s).value, ServeOne(pmods, Fresh(serial), s);
            && c.stream.Some? && ProtoOf(c.stream.value) == p
            && c.trace.history == s && c.trace.overflowed == Overflows(StreamAfter(p, []), s)
  {
    NothingYet(ProbePmod(pmods, s).value);
    ClientPacketsOk(pmods, Fresh(serial), s);
    assert [] + s == s;
  }

  lemma RecognisedAtOnce(pmods: seq<Proto>, serial: nat, segments: seq<seq<byte>>)
    requires segments != [] && ProbePmod(pmods, segments[0]).Some?
    requires NoneOverflows(ProbePmod(pmods, segments[0]).value, [], segments)
    ensures Delivers(pmods, segments, Serve(pmods, Fresh(serial), segments))
  {
    var s := segments[0];
    var next := ServeOne(pmods, Fresh(serial), s);
    FirstSegment(pmods, serial, s);
    ServeOneOk(pmods, Fresh(serial), s);
    assert [] + s == s;
    ServeRecognised(pmods, next, segments[1..]);
    var end := Serve(pmods, next, segments[1..]);
    assert Serve(pmods, Fresh(serial), segments) == end;
    assert ConnOk(end);
  }

  // ----- all connections -----

  ghost predicate Sane(reg: Registry) {
    Consistent(reg) && LogOk(reg)
  }

  ghost predicate Invariant(reg: Registry) {
    Sane(reg) && forall fd :: fd in reg.conns ==> ConnOk(reg.conns[fd])
  }

  /** A connection that is not at `fd` is either gone or untouched. */
  ghost predicate OthersKept(before: Registry, after: Registry, fd: int) {
    forall f :: f in after.conns && f != fd ==> f in before.conns && after.conns[f] == before.conns[f]
  }

  lemma TakePacketOk(reg: Registry, fd: int, p: Proto, packet: seq<byte>)
    requires Sane(reg) && fd in reg.conns && PacketOk(p, packet)
    requires reg.conns[fd].stream.Some? && ProtoOf(reg.conns[fd].stream.value) == p
    ensures var after := TakePacket(reg, fd, p, packet);
            && Sane(after) && OthersKept(reg, after, fd) && fd in after.conns
            && after.conns[fd] == reg.conns[fd].(imei := Named(p, reg.conns[fd].imei, packet))
  {
    if reg.conns[fd].imei.None? && ImeiFromPacket(p, packet).Some? {
      var imei := ImeiFromPacket(p, packet).value;
      LogInFrame(reg, fd, imei);
      LogInConsistent(reg, fd, imei);
      LogInLogOk(reg, fd, imei);
    }
  }

  /** The registry hands out the labels that the connection alone determines. */
  lemma {:induction false} TakeAllOk(reg: Registry, fd: int, p: Proto, packets: seq<seq<byte>>)
    requires Sane(reg) && fd in reg.conns && AllOk(p, packets)
    requires reg.conns[fd].stream.Some? && ProtoOf(reg.conns[fd].stream.value) == p
    ensures var taken := TakeAll(reg, fd, p, packets);
            && Sane(taken.reg) && OthersKept(reg, taken.reg, fd) && fd in taken.reg.conns
            && taken.reg.conns[fd] == reg.conns[fd].(imei := NameAfter(p, reg.conns[fd].imei, packets))
            && taken.msgs == Label(p, reg.conns[fd].imei, packets)
    decreases |packets|
  {
    if packets != [] {
      assert packets[0] in packets;
      TakePacketOk(reg, fd, p, packets[0]);
      TakeAllOk(TakePacket(reg, fd, p, packets[0]), fd, p, packets[1..]);
    }
  }

  /** Replacing what is on record about one connection, but not its name or number, leaves the maps in order. */
  lemma ReplaceSane(reg: Registry, fd: int, c: Conn)
    requires Sane(reg) && fd in reg.conns
    requires c.serial == reg.conns[fd].serial && c.imei == reg.conns[fd].imei
    requires c.stream.Some?
    requires reg.conns[fd].stream.Some? ==> ProtoOf(c.stream.value) == ProtoOf(reg.conns[fd].stream.value)
    ensures Sane(reg.(conns := reg.conns[fd := c]))
  {
  }

  lemma RecvOk(pmods: seq<Proto>, reg: Registry, fd: int, input: Input)
    requires Invariant(reg)
    ensures var out := Recv(pmods, reg, fd, input);
            && Invariant(out.reg)
            && OthersKept(reg, out.reg, fd)
            && (out.msgs.None? <==> fd !in reg.conns || input.Failed? || input.bytes == [])
            && (out.msgs.None? ==> out.reg == reg)
            && (out.msgs.Some? ==>
                  && fd in out.reg.conns && out.reg.conns[fd].serial == reg.conns[fd].serial
                  && out.reg.conns[fd].trace.delivered == reg.conns[fd].trace.delivered + out.msgs.value
                  && out.reg.conns[fd] == ServeOne(pmods, reg.conns[fd], input.bytes))
  {
    var out := Recv(pmods, reg, fd, input);
    if out.msgs.Some? {
      var c := reg.conns[fd];
      var got := ClientRecv(pmods, c, input.bytes);
      ClientPacketsOk(pmods, c, input.bytes);
      ClientRecvOk(pmods, c, input.bytes);
      if got.conn.stream.Some? {
        var p := ProtoOf(got.conn.stream.value);
        var mid := reg.(conns := reg.conns[fd := got.conn]);
        ReplaceSane(reg, fd, got.conn);
        TakeAllOk(mid, fd, p, got.packets);
        var taken := TakeAll(mid, fd, p, got.packets);
        DeliveredOk(c, got, out.reg.conns[fd]);
        ReplaceSane(taken.reg, fd, out.reg.conns[fd]);
      }
    }
  }

  lemma StopOk(reg: Registry, fd: int)
    requires Invariant(reg)
    ensures Invariant(Stop(reg, fd)) && fd !in Stop(reg, fd).conns
    ensures forall f :: f in Stop(reg, fd).conns <==> f in reg.conns && f != fd
    ensures OthersKept(reg, Stop(reg, fd), fd)
    ensures fd !in reg.conns ==> Stop(reg, fd) == reg
  {
    StopConsistent(reg, fd);
    StopLogOk(reg, fd);
  }

  /** Stopping a connection never takes an imei away from another one. */
  lemma StopSparesOthers(reg: Registry, fd: int, i: Imei)
    requires Invariant(reg) && i in reg.byImei && reg.byImei[i].fd != fd
    ensures i in Stop(reg, fd).byImei && Stop(reg, fd).byImei[i] == reg.byImei[i]
  {
  }

  lemma AddOk(reg: Registry, fd: int)
    requires Invariant(reg) && fd !in reg.conns
    ensures Invariant(Add(reg, fd))
  {
    AddConsistent(reg, fd);
  }

  // ----- runs -----

  /** Whatever can happen to the registry, in any order. */
  datatype Step = Accepted(fd: int) | Arrived(fd: int, input: Input) | StopRequested(fd: int)

  function Apply(pmods: seq<Proto>, reg: Registry, step: Step): Registry {
    match step
    case Accepted(fd) => Add(reg, fd)
    case Arrived(fd, input) => Recv(pmods, reg, fd, input).reg
    case StopRequested(fd) => Stop(reg, fd)
  }

  function RunSteps(pmods: seq<Proto>, reg: Registry, steps: seq<Step>): Registry
    decreases |steps|
  {
    if steps == [] then reg else RunSteps(pmods, Apply(pmods, reg, steps[0]), steps[1..])
  }

  /** The operating system never hands out a descriptor that is still open. */
  predicate FreshDescriptors(pmods: seq<Proto>, reg: Registry, steps: seq<Step>)
    decreases |steps|
  {
    steps == [] ||
    ((steps[0].Accepted? ==> steps[0].fd !in reg.conns) &&
     FreshDescriptors(pmods, Apply(pmods, reg, steps[0]), steps[1..]))
  }

  lemma StepKeepsInvariant(pmods: seq<Proto>, reg: Registry, step: Step)
    requires Invariant(reg) && (step.Accepted? ==> step.fd !in reg.conns)
    ensures Invariant(Apply(pmods, reg, step))
  {
    match step {
      case Accepted(fd) => AddOk(reg, fd);
      case Arrived(fd, input) => RecvOk(pmods, reg, fd, input);
      case StopRequested(fd) => StopOk(reg, fd);
    }
  }

  lemma {:induction false} RunKeepsInvariant(pmods: seq<Proto>, reg: Registry, steps: seq<Step>)
    requires Invariant(reg) && FreshDescriptors(pmods, reg, steps)
    ensures Invariant(RunSteps(pmods, reg, steps))
    decreases |steps|
  {
    if steps != [] {
      StepKeepsInvariant(pmods, reg, steps[0]);
      RunKeepsInvariant(pmods, Apply(pmods, reg, steps[0]), steps[1..]);
    }
  }

  // ----- one connection among others -----

  /** The connection at `fd` is served before and after every step. */
  predicate ServedThroughout(pmods: seq<Proto>, reg: Registry, steps: seq<Step>, fd: int)
    decreases |steps|
  {
    && fd in reg.conns
    && (steps == [] || ServedThroughout(pmods, Apply(pmods, reg, steps[0]), steps[1..], fd))
  }

  /** What arrives on `fd`. */
  function Arrivals(step: Step, fd: int): seq<seq<byte>> {
    if step.Arrived? && step.fd == fd && step.input.Segment? && step.input.bytes != [] then [step.input.bytes] else []
  }

  function ArrivedOn(steps: seq<Step>, fd: int): seq<seq<byte>> {
    if steps == [] then [] else Arrivals(steps[0], fd) + ArrivedOn(steps[1..], fd)
  }

  /** What reading `fd` has returned, in order. */
  function Returned(pmods: seq<Proto>, reg: Registry, step: Step, fd: int): seq<Labelled> {
    if step.Arrived? && step.fd == fd && Recv(pmods, reg, fd, step.input).msgs.Some?
    then Recv(pmods, reg, fd, step.input).msgs.value
    else []
  }

  function ReturnedOn(pmods: seq<Proto>, reg: Registry, steps: seq<Step>, fd: int): seq<Labelled>
    decreases |steps|
  {
    if steps == [] then []
    else Returned(pmods, reg, steps[0], fd) + ReturnedOn(pmods, Apply(pmods, reg, steps[0]), steps[1..], fd)
  }

  /** One step, seen from a connection that it leaves served. */
  lemma StepSeenFrom(pmods: seq<Proto>, reg: Registry, step: Step, fd: int)
    requires Invariant(reg) && fd in reg.conns && (step.Accepted? ==> step.fd !in reg.conns)
    requires fd in Apply(pmods, reg, step).conns
    ensures var after := Apply(pmods, reg, step).conns[fd];
            && after == Serve(pmods, reg.conns[fd], Arrivals(step, fd))
            && after.trace.delivered == reg.conns[fd].trace.delivered + Returned(pmods, reg, step, fd)
  {
    var none: seq<Labelled> := [];
    assert reg.conns[fd].trace.delivered + none == reg.conns[fd].trace.delivered;
    match step {
      case Accepted(f) =>
      case Arrived(f, input) =>
        RecvOk(pmods, reg, f, input);
        if f == fd && input.Segment? && input.bytes != [] {
          assert Serve(pmods, ServeOne(pmods, reg.conns[fd], input.bytes), []) ==
                 ServeOne(pmods, reg.conns[fd], input.bytes);
          assert [input.bytes][1..] == [];
        }
      case StopRequested(f) => StopOk(reg, f);
    }
  }

  lemma {:induction false} ServeAppend(pmods: seq<Proto>, c: Conn, a: seq<seq<byte>>, b: seq<seq<byte>>)
    ensures Serve(pmods, c, a + b) == Serve(pmods, Serve(pmods, c, a), b)
    decreases |a|
  {
    if a == [] {
      assert a + b == b;
    } else {
      assert (a + b)[1..] == a[1..] + b;
      ServeAppend(pmods, ServeOne(pmods, c, a[0]), a[1..], b);
    }
  }

  /** Whatever the others do, a connection gets where it would have got alone, and returns what it delivers. */
  lemma {:induction false} ServedAsIfAlone(pmods: seq<Proto>, reg: Registry, steps: seq<Step>, fd: int)
    requires Invariant(reg) && FreshDescriptors(pmods, reg, steps) && ServedThroughout(pmods, reg, steps, fd)
    ensures var end := RunSteps(pmods, reg, steps);
            && fd in end.conns && end.conns[fd] == Serve(pmods, reg.conns[fd], ArrivedOn(steps, fd))
            && end.conns[fd].trace.delivered == reg.conns[fd].trace.delivered + ReturnedOn(pmods, reg, steps, fd)
    decreases |steps|
  {
    if steps == [] {
      assert reg.conns[fd].trace.delivered + [] == reg.conns[fd].trace.delivered;
    } else {
      var now := Apply(pmods, reg, steps[0]);
      StepKeepsInvariant(pmods, reg, steps[0]);
      StepSeenFrom(pmods, reg, steps[0], fd);
      ServedAsIfAlone(pmods, now, steps[1..], fd);
      ServeAppend(pmods, reg.conns[fd], Arrivals(steps[0], fd), ArrivedOn(steps[1..], fd));
      Assoc(reg.conns[fd].trace.delivered, Returned(pmods, reg, steps[0], fd),
            ReturnedOn(pmods, now, steps[1..], fd));
    }
  }

  /**
    End to end in any interleaving: whatever happened before a connection is accepted and whatever happens to others
    meanwhile, what reading it returns is, labelled, the packets of its deframer's run over its segments from the first
    recognised one on; without overflow, those of one pass over their bytes.
  */
  lemma InterleavedEndToEnd(pmods: seq<Proto>, reg: Registry, fd: int, steps: seq<Step>)
    requires Invariant(reg) && fd !in reg.conns
    requires FreshDescriptors(pmods, Add(reg, fd), steps) && ServedThroughout(pmods, Add(reg, fd), steps, fd)
    ensures fd in RunSteps(pmods, Add(reg, fd), steps).conns
    ensures var end := RunSteps(pmods, Add(reg, fd), steps).conns[fd];
            && end.trace.delivered == ReturnedOn(pmods, Add(reg, fd), steps, fd)
            && DeliversRun(pmods, ArrivedOn(steps, fd), end)
            && (StaysWithin(pmods, ArrivedOn(steps, fd)) ==> Delivers(pmods, ArrivedOn(steps, fd), end))
  {
    AddOk(reg, fd);
    ServedAsIfAlone(pmods, Add(reg, fd), steps, fd);
    EndToEndRun(pmods, reg.next, ArrivedOn(steps, fd));
    if StaysWithin(pmods, ArrivedOn(steps, fd)) {
      EndToEnd(pmods, reg.next, ArrivedOn(steps, fd));
    }
    assert Add(reg, fd).conns[fd] == Fresh(reg.next);
    var returned := ReturnedOn(pmods, Add(reg, fd), steps, fd);
    assert [] + returned == returned;
  }

  // ----- reachable states -----

  lemma EmptyInvariant()
    ensures Invariant(EMPTY)
  {
  }

  /** Every reachable state: the maps agree, the log says who owns what, every connection's record is right. */
  lemma ReachableOk(pmods: seq<Proto>, steps: seq<Step>)
    requires FreshDescriptors(pmods, EMPTY, steps)
    ensures Invariant(RunSteps(pmods, EMPTY, steps))
  {
    EmptyInvariant();
    RunKeepsInvariant(pmods, EMPTY, steps);
  }
}
