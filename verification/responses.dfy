/** What becomes of a response from the bus: who gets it, in what framing, and when the collector fails on it. */
module Responses {
  import opened Bytes
  import opened Protocols
  import opened Registry
  import opened RegistryRuns
  import Zx303Framing
  import Beesure
  import BeesureFraming
  import BeesureTransparency
  import BeesureOverflow
  import BeesureBytes

  /**
    What becomes of a response: nobody goes by its imei, it is written to a connection's socket in the framing of
    that connection's protocol, or the assertions on the way fail, which nothing catches.
  */
  datatype Reply =
    | NotConnected
    | Written(to: Handle, proto: Proto, data: seq<byte>)
    | Fails(to: Handle)

  function Response(reg: Registry, imei: Option<Imei>, packet: seq<byte>): Reply {
    if imei.None? || imei.value !in reg.byImei then NotConnected
    else
      var h := reg.byImei[imei.value];
      if h.fd !in reg.conns || reg.conns[h.fd].stream.None? then Fails(h)
      else
        var p := ProtoOf(reg.conns[h.fd].stream.value);
        var data := Enframe(p, packet, reg.conns[h.fd].imei);
        if data.None? then Fails(h) else Written(h, p, data.value)
  }

  /** What can be said of a response before it is sent: for a beesure terminal it has to start with a header. */
  predicate Framable(i: Imei, packet: seq<byte>) {
    |i| == 10 ==> Beesure.FrameStart(packet).offset == 0
  }

  /** A connected terminal gets the response if and only if its protocol can frame it. */
  lemma ResponseExact(reg: Registry, i: Imei, packet: seq<byte>)
    requires Invariant(reg)
    ensures var r := Response(reg, Some(i), packet);
            && (r.NotConnected? <==> i !in reg.byImei)
            && (i in reg.byImei ==>
                  var h := reg.byImei[i];
                  && h.fd in reg.conns && reg.conns[h.fd].imei == Some(i) && reg.conns[h.fd].stream.Some?
                  && var p := ProtoOf(reg.conns[h.fd].stream.value);
                     && (p == Bs <==> |i| == 10)
                     && r.to == h
                     && (r.Written? <==> p == Zx || Beesure.FrameStart(packet).offset == 0)
                     && (r.Written? <==> Framable(i, packet))
                     && (r.Written? ==> r.proto == p && Enframe(p, packet, Some(i)) == Some(r.data)))
  {
  }

  /**
    In every reachable state a response is written to the connection of the most recent login with its imei, if that
    has not been stopped since and the response can be framed for it; if only the framing is missing the collector
    fails on it, and it is ignored if and only if there is no such connection.
  */
  lemma LastLoginWins(pmods: seq<Proto>, steps: seq<Step>, i: Imei, s: nat, packet: seq<byte>)
    requires FreshDescriptors(pmods, EMPTY, steps)
    ensures var reg := RunSteps(pmods, EMPTY, steps);
            var r := Response(reg, Some(i), packet);
            && (r.Written? && r.to.serial == s <==> LoggedInNow(reg.log, i, s) && Framable(i, packet))
            && (r.Fails? && r.to.serial == s <==> LoggedInNow(reg.log, i, s) && !Framable(i, packet))
            && (!r.NotConnected? ==> r.to.fd in reg.conns && reg.conns[r.to.fd].imei == Some(i))
            && (r.NotConnected? ==> !LoggedInNow(reg.log, i, s))
  {
    var reg := RunSteps(pmods, EMPTY, steps);
    ReachableOk(pmods, steps);
    OwnerMeaning(reg.log, i, s);
    ResponseExact(reg, i, packet);
  }

  /** The framing for beesure, byte for byte: the packet with the imei filled in and its length in upper case. */
  lemma BsFramingSpelledOut(packet: seq<byte>, imei: Imei)
    requires BeesureTransparency.IsImei(imei) && Beesure.HeaderAt(packet, 0)
    ensures Enframe(Bs, packet, Some(imei)).Some?
    ensures var data := Enframe(Bs, packet, Some(imei)).value;
            && |data| == |packet|
            && data[0] == 0x5B && data[1..3] == packet[1..3] && data[3] == 0x2A && data[4..14] == imei
            && data[14] == 0x2A && data[19] == 0x2A && data[20..] == packet[20..]
            && (forall k :: 15 <= k < 19 ==> 0x30 <= data[k] <= 0x39 || 0x41 <= data[k] <= 0x46)
            && Beesure.HeaderAt(data, 0) && Beesure.DataLen(data) == Beesure.DataLen(packet)
  {
    var vendor, length := packet[1..3], Beesure.DataLen(packet);
    Beesure.FrameStartMeaning(packet);
    HeaderVendor(packet);
    BeesureOverflow.DataLenBound(packet);
    BeesureTransparency.BuiltHeader(vendor, imei, length, packet[20..]);
    var data := BeesureTransparency.Header(vendor, imei, length) + packet[20..];
    assert packet[0..] == packet;
    assert Enframe(Bs, packet, Some(imei)) == Some(data);
    LengthDigits(vendor, imei, length, packet[20..]);
  }

  lemma HeaderVendor(packet: seq<byte>)
    requires Beesure.HeaderAt(packet, 0)
    ensures BeesureTransparency.IsVendor(packet[1..3])
    ensures packet[0] == 0x5B && packet[3] == 0x2A && packet[14] == 0x2A && packet[19] == 0x2A
  {
    BeesureBytes.HeaderSpelledOut(packet, 0);
    BeesureBytes.VendorSpelledOut(packet[1..3]);
  }

  lemma LengthDigits(vendor: seq<byte>, imei: Imei, length: nat, rest: seq<byte>)
    requires BeesureTransparency.IsVendor(vendor) && BeesureTransparency.IsImei(imei) && length < 0x1_0000
    ensures var data := BeesureTransparency.Header(vendor, imei, length) + rest;
            && |data| == 20 + |rest|
            && data[0] == 0x5B && data[3] == 0x2A && data[14] == 0x2A && data[19] == 0x2A
            && forall k :: 15 <= k < 19 ==> 0x30 <= data[k] <= 0x39 || 0x41 <= data[k] <= 0x46
  {
    var hex, data := BeesureTransparency.Hex04(length), BeesureTransparency.Header(vendor, imei, length) + rest;
    BeesureTransparency.HexRoundTrip(length);
    BeesureBytes.Hex04IsUpper(length);
    forall k | 15 <= k < 19 ensures 0x30 <= data[k] <= 0x39 || 0x41 <= data[k] <= 0x46 {
      assert data[k] == hex[k - 15] && hex[k - 15] in hex;
    }
  }

  /** What is written: `xx`, the packet and CR LF for zx303, the packet with the imei filled in for beesure. */
  lemma WrittenSpelledOut(reg: Registry, i: Imei, packet: seq<byte>)
    requires Invariant(reg) && Response(reg, Some(i), packet).Written?
    ensures var data := Response(reg, Some(i), packet).data;
            && (|i| != 10 ==> data == [0x78, 0x78] + packet + [0x0D, 0x0A])
            && (|i| == 10 ==>
                  && |packet| >= 20 && |data| == |packet|
                  && data[..4] == packet[..4] && data[4..14] == i && data[14] == 0x2A
                  && Beesure.HeaderAt(data, 0) && Beesure.HeaderAt(packet, 0)
                  && Beesure.DataLen(data) == Beesure.DataLen(packet)
                  && (forall k :: 15 <= k < 19 ==> 0x30 <= data[k] <= 0x39 || 0x41 <= data[k] <= 0x46)
                  && data[19] == 0x2A && data[20..] == packet[20..])
  {
    ResponseExact(reg, i, packet);
    if |i| == 10 {
      Beesure.FrameStartMeaning(packet);
      assert packet[0..] == packet;
      HeaderVendor(packet);
      BsFramingSpelledOut(packet, i);
      SameFour(packet, Response(reg, Some(i), packet).data);
    }
  }

  lemma SameFour(a: seq<byte>, b: seq<byte>)
    requires |a| >= 4 && |b| >= 4 && a[0] == b[0] && a[1..3] == b[1..3] && a[3] == b[3]
    ensures a[..4] == b[..4]
  {
    assert a[..4] == [a[0]] + a[1..3] + [a[3]];
    assert b[..4] == [b[0]] + b[1..3] + [b[3]];
  }

  /** A beesure response as the parser's classes build it is framed if and only if four digits declare its length. */
  lemma BuiltResponse(reg: Registry, i: Imei, payload: seq<byte>)
    requires Invariant(reg) && i in reg.byImei && |i| == 10
    ensures var r := Response(reg, Some(i), BeesureTransparency.Packed(payload));
            && (r.Written? <==> |payload| < 0x1_0000)
            && (r.Written? ==> r.data == BeesureTransparency.BuildFrame(BeesureTransparency.LT, i, payload))
  {
    ResponseExact(reg, i, BeesureTransparency.Packed(payload));
    if |payload| < 0x1_0000 {
      BeesureTransparency.EnframeFillsImei(payload, i);
    } else {
      BeesureTransparency.EnframeTooLong(payload, Some(i));
    }
  }

  /** Whoever can be sent a response has had a packet handed out before. */
  lemma OwnerHasDelivered(reg: Registry, i: Imei)
    requires Invariant(reg) && i in reg.byImei
    ensures reg.byImei[i].fd in reg.conns && reg.conns[reg.byImei[i].fd].trace.delivered != []
  {
    var c := reg.conns[reg.byImei[i].fd];
    assert ConnOk(c);
  }

  /** A terminal that connects and sends one frame. */
  function OneTerminal(fd: int, frame: seq<byte>): seq<Step> {
    [Accepted(fd), Arrived(fd, Segment(frame))]
  }

  /** A single frame by which a terminal makes itself known. */
  ghost predicate LoginFrame(f: seq<byte>, imei: Imei) {
    && f != [] && |f| <= Beesure.MAXBUFFER
    && ProbePmod([Bs], f) == Some(Bs) && ImeiFromPacket(Bs, f) == Some(imei) && AllPackets(Bs, f) == [f]
  }

  lemma EmptyFrameLogsIn(imei: Imei)
    requires BeesureTransparency.IsImei(imei)
    ensures LoginFrame(BeesureTransparency.BuildFrame(BeesureTransparency.LT, imei, []), imei)
  {
    var f := BeesureTransparency.BuildFrame(BeesureTransparency.LT, imei, []);
    BeesureTransparency.BuiltFrameCut(BeesureTransparency.LT, imei, []);
    BeesureFraming.PacketIdentifies(f);
    assert Flatten([f]) == f + [] == f;
    assert BeesureTransparency.Built(f, imei);
    BeesureTransparency.ReferenceTransparency(imei, [f]);
    BeesureFraming.PacketsOfOne(Beesure.Packet(f));
    assert BeesureTransparency.PacketMsgs([f]) == [Beesure.Packet(f)];
    Beesure.FrameStartMeaning(f);
  }

  lemma FirstFrameNames(f: seq<byte>, imei: Imei)
    requires LoginFrame(f, imei)
    ensures ServeOne([Bs], Fresh(0), f).imei == Some(imei)
  {
    var c := ServeOne([Bs], Fresh(0), f);
    assert c.stream.Some? && ProtoOf(c.stream.value) == Bs && c.trace.history == f && !c.trace.overflowed by {
      NothingYet(Bs);
      FirstSegment([Bs], 0, f);
      assert [] + f == f;
    }
    ServeOneOk([Bs], Fresh(0), f);
    assert PacketsOf(c.trace.delivered) == [f];
    NameOfOne(Bs, f);
  }

  lemma NameOfOne(p: Proto, packet: seq<byte>)
    requires PacketOk(p, packet)
    ensures AllOk(p, [packet]) && NameAfter(p, None, [packet]) == ImeiFromPacket(p, packet)
  {
    assert [packet][1..] == [];
  }

  lemma OneLogin(fd: int, f: seq<byte>, imei: Imei)
    requires LoginFrame(f, imei)
    ensures FreshDescriptors([Bs], EMPTY, OneTerminal(fd, f))
    ensures imei in RunSteps([Bs], EMPTY, OneTerminal(fd, f)).byImei
  {
    var steps, reg := OneTerminal(fd, f), Add(EMPTY, fd);
    var arrival := steps[1..];
    assert steps[1] == arrival[0] && arrival == [Arrived(fd, Segment(f))];
    EmptyInvariant();
    AddOk(EMPTY, fd);
    var out := Recv([Bs], reg, fd, Segment(f));
    RecvOk([Bs], reg, fd, Segment(f));
    assert Apply([Bs], EMPTY, steps[0]) == reg && Apply([Bs], reg, arrival[0]) == out.reg;
    assert RunSteps([Bs], reg, arrival) == out.reg;
    FirstFrameNames(f, imei);
    assert out.reg.conns[fd].imei == Some(imei);
  }

  /** It can fail: a zx303 command for a beesure terminal, unless its length byte happens to be an opening bracket. */
  lemma ForeignCommandFails(fd: int, imei: Imei, proto: byte, payload: seq<byte>)
    requires BeesureTransparency.IsImei(imei)
    requires Zx303Framing.Packed(proto, payload).Some? && |payload| + 1 != OPEN as int
    ensures var frame := BeesureTransparency.BuildFrame(BeesureTransparency.LT, imei, []);
            var reg := RunSteps([Bs], EMPTY, OneTerminal(fd, frame));
            Response(reg, Some(imei), Zx303Framing.Packed(proto, payload).value).Fails?
  {
    var frame := BeesureTransparency.BuildFrame(BeesureTransparency.LT, imei, []);
    var steps, command := OneTerminal(fd, frame), Zx303Framing.Packed(proto, payload).value;
    EmptyFrameLogsIn(imei);
    OneLogin(fd, frame, imei);
    ReachableOk([Bs], steps);
    Beesure.FrameStartMeaning(command);
    assert command[0..] == command;
    assert Beesure.HeaderAt(command, 0) ==> Beesure.InClass(command[0 + 0], Beesure.ClassAt(0));
    ResponseExact(RunSteps([Bs], EMPTY, steps), imei, command);
  }
}
