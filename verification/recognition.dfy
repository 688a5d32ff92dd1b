/** Which segments a protocol recognises, which packets name or end a connection, and what a first segment comes to. */
module Recognition {
  import opened Bytes
  import opened Deframing
  import opened HexText
  import opened Protocols
  import opened Registry
  import opened RegistryRuns
  import Zx303
  import Zx303Framing
  import Beesure
  import BeesureFraming
  import BeesureTransparency

  // ----- segments -----

  /** A segment is taken for zx303 if and only if `xx` stands in it with four more bytes behind. */
  lemma ZxRecognised(s: seq<byte>)
    ensures ProbeBuffer(Zx, s) <==> exists i: nat :: PairAt(s, 0x78, 0x78, i) && i + 6 <= |s|
  {
    var at := FindPair(s, SMALL_X, SMALL_X, 0);
    if i: nat :| PairAt(s, 0x78, 0x78, i) && i + 6 <= |s| {
      assert PairAt(s, SMALL_X, SMALL_X, i);
      assert 0 <= at <= i;
    }
    if ProbeBuffer(Zx, s) {
      assert PairAt(s, 0x78, 0x78, at) && at + 6 <= |s|;
    }
  }

  /** A segment is taken for beesure if and only if a header stands in it. */
  lemma BsRecognised(s: seq<byte>)
    ensures ProbeBuffer(Bs, s) <==> exists i: nat :: Beesure.HeaderAt(s, i)
  {
    Beesure.FindsFirstHeader(s, 0);
  }

  /** Protocol `k` recognises the segment, and none of those configured before it does. */
  predicate FirstAt(pmods: seq<Proto>, s: seq<byte>, p: Proto, k: nat) {
    && k < |pmods| && pmods[k] == p && ProbeBuffer(p, s)
    && forall j :: 0 <= j < k ==> !ProbeBuffer(pmods[j], s)
  }

  /** The first configured protocol that recognises the segment is chosen. */
  lemma {:induction false} FirstRecogniser(pmods: seq<Proto>, s: seq<byte>, p: Proto)
    ensures ProbePmod(pmods, s) == Some(p) <==> exists k: nat :: FirstAt(pmods, s, p, k)
    decreases |pmods|
  {
    if pmods != [] {
      if ProbeBuffer(pmods[0], s) {
        assert FirstAt(pmods, s, pmods[0], 0);
      } else {
        FirstRecogniser(pmods[1..], s, p);
        if k: nat :| FirstAt(pmods[1..], s, p, k) {
          FirstAtShift(pmods, s, p, k);
        }
        if k: nat :| FirstAt(pmods, s, p, k) {
          FirstAtShift(pmods, s, p, k - 1);
        }
      }
    }
  }

  lemma FirstAtShift(pmods: seq<Proto>, s: seq<byte>, p: Proto, k: nat)
    requires pmods != [] && !ProbeBuffer(pmods[0], s)
    ensures FirstAt(pmods, s, p, k + 1) <==> FirstAt(pmods[1..], s, p, k)
  {
    assert forall j :: 0 <= j < |pmods[1..]| ==> pmods[1..][j] == pmods[j + 1];
    forall j | 0 < j < |pmods| ensures pmods[j] == pmods[1..][j - 1] {
    }
  }

  /** None is chosen if and only if none recognises it. */
  lemma {:induction false} NoRecogniser(pmods: seq<Proto>, s: seq<byte>)
    ensures ProbePmod(pmods, s) == None <==> forall k :: 0 <= k < |pmods| ==> !ProbeBuffer(pmods[k], s)
    decreases |pmods|
  {
    if pmods != [] {
      NoRecogniser(pmods[1..], s);
      assert forall k :: 1 <= k < |pmods| ==> pmods[k] == pmods[1..][k - 1];
      assert forall k :: 0 <= k < |pmods[1..]| ==> pmods[1..][k] == pmods[k + 1];
    }
  }

  // ----- hexadecimal text -----

  /** The two characters of byte `k`: digits, and lower-case letters from ten on. */
  lemma {:induction false} ToHexSpelledOut(b: seq<byte>, k: nat)
    requires k < |b|
    ensures var hi, lo := b[k] as int / 16, b[k] as int % 16;
            && ToHex(b)[2 * k] as int == (if hi < 10 then 0x30 + hi else 0x61 + hi - 10)
            && ToHex(b)[2 * k + 1] as int == (if lo < 10 then 0x30 + lo else 0x61 + lo - 10)
    decreases k
  {
    if k > 0 {
      ToHexSpelledOut(b[1..], k - 1);
    }
  }

  // ----- packets -----

  /** A zx303 packet identifies its sender if and only if it is a login with all its bytes. */
  lemma ZxIdentifies(packet: seq<byte>)
    requires |packet| >= 2
    ensures ImeiFromPacket(Zx, packet).Some? <==> packet[1] == 0x01 && |packet| >= 11
    ensures ImeiFromPacket(Zx, packet).Some? ==>
              var imei := ImeiFromPacket(Zx, packet).value;
              && |imei| == 16 && FromHex(imei) == Some(packet[2..10])
              && forall k :: 0 <= k < 16 ==> 0x30 <= imei[k] <= 0x39 || 0x61 <= imei[k] <= 0x66
  {
    if packet[1] == 0x01 && |packet| >= 11 {
      ToHexReads(packet[2..10]);
      ToHexIsLower(packet[2..10]);
    }
  }

  /** A beesure packet does if and only if a header stands at its front. */
  lemma BsIdentifies(packet: seq<byte>)
    ensures ImeiFromPacket(Bs, packet).Some? <==> Beesure.HeaderAt(packet, 0)
    ensures ImeiFromPacket(Bs, packet).Some? ==> |packet| >= 20 && ImeiFromPacket(Bs, packet) == Some(packet[4..14])
  {
    Beesure.FrameStartMeaning(packet);
    assert packet[0..] == packet;
  }

  /** Only zx303 knows goodbyes: the hibernation packets. */
  lemma GoodbyeExact(p: Proto, packet: seq<byte>)
    requires PacketOk(p, packet)
    ensures IsGoodbye(p, packet) <==> p == Zx && packet[1] == 0x14
  {
  }

  /** The eight bytes that a login carries: those of the text, cut off or filled up with zeros. */
  lemma LoginSpelledOut(imei: seq<byte>, ver: byte)
    requires FromHex(imei).Some?
    ensures LoginPacket(imei, ver).Some?
    ensures var id, p := FromHex(imei).value, LoginPacket(imei, ver).value;
            && |p| == 11 && p[0] == 10 && p[1] == 0x01 && p[10] == ver
            && forall k :: 0 <= k < 8 ==> p[2 + k] == if k < |id| then id[k] else 0
  {
  }

  // ----- a first segment -----

  /** A packet takes up four bytes more than it has. */
  lemma {:induction false} PacketsTakeRoom(b: seq<byte>)
    ensures Sound(Zx303.Cut)
    ensures forall m :: m in Zx303.Reports(Deframe(Zx303.Cut, b).spans) && m.Packet? ==> |m.data| + 4 <= |b|
    decreases |b|
  {
    Zx303.CutSound();
    if Zx303.Cut(b).Some? {
      var span := Zx303.Cut(b).value;
      var later := Deframe(Zx303.Cut, b[|span.bytes|..]);
      PacketsTakeRoom(b[|span.bytes|..]);
      assert ([span] + later.spans)[1..] == later.spans;
      assert Zx303.Reports([span] + later.spans) == [Zx303.Report(span)] + Zx303.Reports(later.spans);
    }
  }

  /** So from as many bytes as the framed packet has, the packet can only come if it is all of them. */
  lemma OnlyWholeFrame(p: seq<byte>)
    requires |p| >= 2 && |p| + 4 <= Zx303.MAXBUFFER
    ensures Zx303Framing.Packets(Zx303.Receive([], Zx303Framing.Enframe(p)).msgs) == [p] <==> Zx303Framing.Survives(p)
  {
    var f := Zx303Framing.Enframe(p);
    var msgs := Zx303.Receive([], f).msgs;
    Zx303.CutSound();
    assert [] + f == f;
    Zx303Framing.PacketTransparency(p);
    if Zx303Framing.Survives(p) {
      Zx303Framing.PacketsSnoc([], Zx303.Packet(p));
      assert [] + [Zx303.Packet(p)] == [Zx303.Packet(p)];
    } else if Zx303Framing.Packets(msgs) == [p] {
      PacketsAreReported(msgs, p);
      WholeFrameCut(p);
    }
  }

  lemma {:induction false} PacketsAreReported(msgs: seq<Zx303.Msg>, p: seq<byte>)
    requires p in Zx303Framing.Packets(msgs)
    ensures Zx303.Packet(p) in msgs
    decreases |msgs|
  {
    var init, last := msgs[..|msgs| - 1], msgs[|msgs| - 1];
    if p in Zx303Framing.Packets(init) {
      PacketsAreReported(init, p);
    }
  }

  lemma WholeFrameCut(p: seq<byte>)
    requires |p| >= 2 && Sound(Zx303.Cut)
    requires Zx303.Packet(p) in Zx303.Reports(Deframe(Zx303.Cut, Zx303Framing.Enframe(p)).spans)
    ensures Zx303Framing.Survives(p)
  {
    var f := Zx303Framing.Enframe(p);
    assert Zx303.Cut(f).Some?;
    var span := Zx303.Cut(f).value;
    var later := Deframe(Zx303.Cut, f[|span.bytes|..]);
    assert ([span] + later.spans)[1..] == later.spans;
    PacketsTakeRoom(f[|span.bytes|..]);
    assert Zx303.Report(span) == Zx303.Packet(p);
    Zx303Framing.FrameShape(f);
    Zx303Framing.FramedCut(p, []);
    assert f + [] == f;
  }

  /** What a connection that has not been recognised yet returns for its first segment. */
  lemma FirstReturn(pmods: seq<Proto>, reg: Registry, fd: int, segment: seq<byte>, p: Proto)
    requires Invariant(reg) && fd in reg.conns && reg.conns[fd].stream.None?
    requires segment != [] && ProbePmod(pmods, segment) == Some(p)
    ensures var got := StreamRecv(NewStream(p), segment);
            && AllOk(p, got.packets)
            && Recv(pmods, reg, fd, Segment(segment)).msgs == Some(Label(p, None, got.packets))
  {
    var c, out := reg.conns[fd], Recv(pmods, reg, fd, Segment(segment));
    assert ConnOk(c);
    FirstServed(pmods, c, segment, p);
    RecvOk(pmods, reg, fd, Segment(segment));
    assert out.reg.conns[fd].trace.delivered == [] + out.msgs.value == out.msgs.value;
  }

  lemma FirstServed(pmods: seq<Proto>, c: Conn, segment: seq<byte>, p: Proto)
    requires ConnOk(c) && c.stream.None? && ProbePmod(pmods, segment) == Some(p)
    ensures c.trace == NO_TRACE && c.imei == None
    ensures var got := StreamRecv(NewStream(p), segment);
            AllOk(p, got.packets) && ServeOne(pmods, c, segment).trace.delivered == Label(p, None, got.packets)
  {
    ClientPacketsOk(pmods, c, segment);
    var got := ClientRecv(pmods, c, segment);
    assert got.packets == StreamRecv(NewStream(p), segment).packets;
    assert [] + Label(p, None, got.packets) == Label(p, None, got.packets);
  }

  lemma LabelOfOne(p: Proto, packet: seq<byte>, packets: seq<seq<byte>>)
    requires AllOk(p, packets) && PacketOk(p, packet)
    ensures Label(p, None, packets) == [Labelled(p, ImeiFromPacket(p, packet), packet)] <==> packets == [packet]
  {
    LabelKeepsPackets(p, None, packets);
    assert PacketsOf([Labelled(p, ImeiFromPacket(p, packet), packet)]) == [packet];
    if packets == [packet] {
      assert [packet][1..] == [];
    }
  }

  /**
    With zx303 configured first, a terminal whose first segment is one framed packet has exactly that packet read, with
    its imei if it is a login, if and only if the packet survives the framing.
  */
  lemma FirstZxPacket(pmods: seq<Proto>, reg: Registry, fd: int, p: seq<byte>)
    requires Invariant(reg) && fd in reg.conns && reg.conns[fd].stream.None?
    requires pmods != [] && pmods[0] == Zx && 2 <= |p| <= 4092
    ensures var imei := if p[1] == 0x01 && |p| >= 11 then Some(ToHex(p[2..10])) else None;
            Recv(pmods, reg, fd, Segment([0x78, 0x78] + p + [0x0D, 0x0A])).msgs == Some([Labelled(Zx, imei, p)])
            <==> Zx303Framing.Survives(p)
  {
    var f := [0x78, 0x78] + p + [0x0D, 0x0A];
    assert f == Zx303Framing.Enframe(p);
    assert PairAt(f, 0x78, 0x78, 0) && 0 + 6 <= |f|;
    ZxRecognised(f);
    FirstReturn(pmods, reg, fd, f, Zx);
    LabelOfOne(Zx, p, StreamRecv(NewStream(Zx), f).packets);
    OnlyWholeFrame(p);
  }

  /** With beesure configured first, a first segment of one built frame is read as that frame, whatever it holds. */
  lemma FirstBsPacket(pmods: seq<Proto>, reg: Registry, fd: int, vendor: seq<byte>, imei: seq<byte>,
                      payload: seq<byte>)
    requires Invariant(reg) && fd in reg.conns && reg.conns[fd].stream.None?
    requires pmods != [] && pmods[0] == Bs
    requires BeesureTransparency.IsVendor(vendor) && BeesureTransparency.IsImei(imei) && |payload| < 0x1_0000
    ensures var f := BeesureTransparency.BuildFrame(vendor, imei, payload);
            Recv(pmods, reg, fd, Segment(f)).msgs == Some([Labelled(Bs, Some(imei), f)])
  {
    var f := BeesureTransparency.BuildFrame(vendor, imei, payload);
    BeesureTransparency.BuiltFrameCut(vendor, imei, payload);
    BsRecognised(f);
    FirstReturn(pmods, reg, fd, f, Bs);
    WholeFrameRead(f, imei);
    BsIdentifies(f);
    LabelOfOne(Bs, f, StreamRecv(NewStream(Bs), f).packets);
  }

  lemma WholeFrameRead(f: seq<byte>, imei: seq<byte>)
    requires BeesureTransparency.Built(f, imei) && |f| <= Beesure.MAXBUFFER
    ensures StreamRecv(NewStream(Bs), f).packets == [f]
  {
    assert [] + f == f;
    assert Flatten([f]) == f + [] == f;
    BeesureTransparency.ReferenceTransparency(imei, [f]);
    assert BeesureTransparency.PacketMsgs([f]) == [Beesure.Packet(f)];
    BeesureFraming.PacketsOfOne(Beesure.Packet(f));
  }
}
