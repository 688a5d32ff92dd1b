/** What the zx303 deframer guarantees over whole streams, and exactly which packets survive its framing. */
module Zx303Framing {
  import opened Bytes
  import opened Deframing
  import opened Zx303

  function Enframe(packet: seq<byte>): seq<byte> {
    [SMALL_X, SMALL_X] + packet + [CR, LF]
  }

  /** The default packet layout: a length byte that counts itself out, a protocol byte, the payload. */
  function Packed(proto: byte, payload: seq<byte>): Option<seq<byte>> {
    if |payload| + 1 < 0x100 then Some([(|payload| + 1) as byte, proto] + payload) else None
  }

  function EnframeAll(packets: seq<seq<byte>>): (frames: seq<seq<byte>>)
    ensures |frames| == |packets|
    ensures forall i :: 0 <= i < |packets| ==> frames[i] == Enframe(packets[i])
  {
    if packets == [] then [] else [Enframe(packets[0])] + EnframeAll(packets[1..])
  }

  function PacketMsgs(packets: seq<seq<byte>>): (msgs: seq<Msg>)
    ensures |msgs| == |packets|
    ensures forall i :: 0 <= i < |packets| ==> msgs[i] == Packet(packets[i])
  {
    if packets == [] then [] else [Packet(packets[0])] + PacketMsgs(packets[1..])
  }

  ghost predicate NoOverflow(buffer: seq<byte>, segments: seq<seq<byte>>) {
    CutSound();
    Fits(Cut, buffer, segments, MAXBUFFER)
  }

  /** Any segmentation without overflow delivers the messages and leaves the buffer of a single pass. */
  lemma {:induction false} SegmentationExact(buffer: seq<byte>, segments: seq<seq<byte>>)
    requires Cut(buffer).None? && NoOverflow(buffer, segments)
    ensures Sound(Cut)
    ensures Run(buffer, segments) ==
            var whole := Deframe(Cut, buffer + Flatten(segments));
            Received(Reports(whole.spans), whole.rest)
  {
    CutSound();
    CutStable();
    RunIsDeframeSegments(buffer, segments);
    SegmentationIndependence(Cut, buffer, segments);
  }

  lemma {:induction false} RunIsDeframeSegments(buffer: seq<byte>, segments: seq<seq<byte>>)
    requires NoOverflow(buffer, segments)
    ensures Sound(Cut)
    ensures var parse := DeframeSegments(Cut, buffer, segments);
            Run(buffer, segments) == Received(Reports(parse.spans), parse.rest)
    decreases |segments|
  {
    CutSound();
    if segments != [] {
      var now := Deframe(Cut, buffer + segments[0]);
      RunIsDeframeSegments(now.rest, segments[1..]);
      ReportsAppend(now.spans, DeframeSegments(Cut, now.rest, segments[1..]).spans);
    }
  }

  /** The spans behind a run's messages and its buffer are the bytes received, in order and complete. */
  lemma RunConserves(segments: seq<seq<byte>>)
    requires NoOverflow([], segments)
    ensures Sound(Cut)
    ensures var spans := Deframe(Cut, Flatten(segments)).spans;
            var run := Run([], segments);
            run.msgs == Reports(spans) && Flatten(Pieces(spans)) + run.buffer == Flatten(segments)
  {
    var stream := Flatten(segments);
    CutSound();
    assert [] + stream == stream;
    SegmentationExact([], segments);
    Conservation(Cut, stream);
  }

  /** The packets among the messages, in order. */
  function Packets(msgs: seq<Msg>): seq<seq<byte>> {
    if msgs == [] then []
    else Packets(msgs[..|msgs| - 1]) + (if msgs[|msgs| - 1].Packet? then [msgs[|msgs| - 1].data] else [])
  }

  lemma PacketsSnoc(msgs: seq<Msg>, m: Msg)
    ensures Packets(msgs + [m]) == Packets(msgs) + (if m.Packet? then [m.data] else [])
  {
    assert (msgs + [m])[..|msgs|] == msgs;
  }

  lemma {:induction false} PacketsAppend(a: seq<Msg>, b: seq<Msg>)
    ensures Packets(a + b) == Packets(a) + Packets(b)
    decreases |b|
  {
    if b == [] {
      assert a + b == a;
    } else {
      var init, last := b[..|b| - 1], b[|b| - 1];
      PacketsAppend(a, init);
      PacketsSnoc(a + init, last);
      assert b == init + [last];
      Assoc(a, init, [last]);
      Assoc(Packets(a), Packets(init), if last.Packet? then [last.data] else []);
    }
  }

  /**
    The reference for any stream whatsoever: an overflow ends a stretch of the stream, without the segment that
    caused it, and every stretch is deframed in one pass.
  */
  function ByStretches(stretch: seq<byte>, segments: seq<seq<byte>>): Received
    decreases |segments|
  {
    CutSound();
    var parse := Deframe(Cut, stretch);
    if segments == [] then Received(Reports(parse.spans), parse.rest)
    else if |parse.rest + segments[0]| > MAXBUFFER then
      var anew := ByStretches([], segments[1..]);
      Received(Reports(parse.spans) + ([Dropped] + anew.msgs), anew.buffer)
    else ByStretches(stretch + segments[0], segments[1..])
  }

  lemma NothingDeframed()
    ensures Sound(Cut) && Deframe(Cut, []) == Parse([], [])
  {
    CutSound();
    assert Cut([]).None?;
  }

  lemma StretchGrows(stretch: seq<byte>, segment: seq<byte>, later: seq<Msg>)
    ensures Sound(Cut)
    ensures var parse := Deframe(Cut, stretch);
            var now := Deframe(Cut, parse.rest + segment);
            var whole := Deframe(Cut, stretch + segment);
            && whole.rest == now.rest
            && Reports(whole.spans) + later == Reports(parse.spans) + (Reports(now.spans) + later)
  {
    CutSound();
    CutStable();
    var parse := Deframe(Cut, stretch);
    var now := Deframe(Cut, parse.rest + segment);
    DeframeAppend(Cut, stretch, segment);
    ReportsAppend(parse.spans, now.spans);
    Assoc(Reports(parse.spans), Reports(now.spans), later);
  }

  /** The reference goes on as a run from what is left of the stretch. */
  ghost predicate Continues(stretch: seq<byte>, segments: seq<seq<byte>>) {
    CutSound();
    var parse := Deframe(Cut, stretch);
    var run := Run(parse.rest, segments);
    ByStretches(stretch, segments) == Received(Reports(parse.spans) + run.msgs, run.buffer)
  }

  lemma OverflowContinues(stretch: seq<byte>, segments: seq<seq<byte>>)
    requires Sound(Cut) && segments != [] && |Deframe(Cut, stretch).rest + segments[0]| > MAXBUFFER
    requires Continues([], segments[1..])
    ensures Continues(stretch, segments)
  {
    var rest := Deframe(Cut, stretch).rest;
    NothingDeframed();
    assert Receive(rest, segments[0]) == Received([Dropped], []);
    var anew := Run([], segments[1..]);
    assert [] + anew.msgs == anew.msgs;
    assert Run(rest, segments) == Received([Dropped] + anew.msgs, anew.buffer);
  }

  lemma FitContinues(stretch: seq<byte>, segments: seq<seq<byte>>)
    requires Sound(Cut) && segments != [] && |Deframe(Cut, stretch).rest + segments[0]| <= MAXBUFFER
    requires Continues(stretch + segments[0], segments[1..])
    ensures Continues(stretch, segments)
  {
    var rest := Deframe(Cut, stretch).rest;
    var now := Deframe(Cut, rest + segments[0]);
    var later := Run(now.rest, segments[1..]);
    assert Run(rest, segments) == Received(Reports(now.spans) + later.msgs, later.buffer);
    StretchGrows(stretch, segments[0], later.msgs);
  }

  lemma {:induction false} RunContinuesStretch(stretch: seq<byte>, segments: seq<seq<byte>>)
    ensures Continues(stretch, segments)
    decreases |segments|
  {
    CutSound();
    if segments == [] {
      var msgs := Reports(Deframe(Cut, stretch).spans);
      assert msgs + [] == msgs;
    } else if |Deframe(Cut, stretch).rest + segments[0]| > MAXBUFFER {
      RunContinuesStretch([], segments[1..]);
      OverflowContinues(stretch, segments);
    } else {
      RunContinuesStretch(stretch + segments[0], segments[1..]);
      FitContinues(stretch, segments);
    }
  }

  /** An overflow costs what has been collected and nothing else: every run is a run of one-pass stretches. */
  lemma OverflowResets(segments: seq<seq<byte>>)
    ensures Run([], segments) == ByStretches([], segments)
  {
    NothingDeframed();
    RunContinuesStretch([], segments);
    assert [] + Run([], segments).msgs == Run([], segments).msgs;
  }

  /** A frame begins with `xx`, ends in CR LF, and no earlier CR LF was late enough. */
  lemma FrameShape(b: seq<byte>)
    requires Cut(b).Some? && Cut(b).value.Frame?
    ensures var f := Cut(b).value.bytes;
            && |f| >= 5 && f[..2] == [SMALL_X, SMALL_X] && f[|f| - 2..] == [CR, LF]
            && f == Enframe(Inside(f))
            && f[2] as int <= |f| - 2
            && forall i :: f[2] as int <= i < |f| - 2 ==> !PairAt(f, CR, LF, i)
  {
    var f := Cut(b).value.bytes;
    assert PairAt(b, SMALL_X, SMALL_X, 0);
    assert PairAt(b, CR, LF, |f| - 2);
    assert b[2] == f[2];
    assert !PairAt(b, CR, LF, 0);
    forall i | f[2] as int <= i < |f| - 2 ensures !PairAt(f, CR, LF, i) {
      assert PairAt(f, CR, LF, i) ==> PairAt(b, CR, LF, i);
    }
  }

  /** Packets have a length and a protocol byte; only one-byte frames are called too short. */
  predicate WellFormed(m: Msg) {
    match m
    case Packet(data) => |data| >= 2
    case TooShort(data) => |data| == 1
    case Undecodable(count, shown) => 0 < count && |shown| == if count < 64 then count else 64
    case Dropped => false
  }

  lemma ReportWellFormed(b: seq<byte>)
    requires Cut(b).Some?
    ensures WellFormed(Report(Cut(b).value))
  {
    if Cut(b).value.Frame? {
      FrameShape(b);
    }
  }

  lemma {:induction false} MessagesWellFormed(b: seq<byte>)
    ensures Sound(Cut)
    ensures forall m :: m in Reports(Deframe(Cut, b).spans) ==> WellFormed(m)
    decreases |b|
  {
    CutSound();
    if Cut(b).Some? {
      var span := Cut(b).value;
      var later := Deframe(Cut, b[|span.bytes|..]);
      ReportWellFormed(b);
      MessagesWellFormed(b[|span.bytes|..]);
      assert ([span] + later.spans)[1..] == later.spans;
      assert Reports([span] + later.spans) == [Report(span)] + Reports(later.spans);
    }
  }

  /** No CR LF of the packet itself is late enough to be taken for the end, and the end is late enough. */
  ghost predicate Survives(packet: seq<byte>)
    requires |packet| >= 2
  {
    && packet[0] as int <= |packet| + 2
    && forall i :: packet[0] as int - 2 <= i ==> !PairAt(packet, CR, LF, i)
  }

  /** Whatever follows, the enframed packet is cut off whole if and only if it survives. */
  lemma FramedCut(packet: seq<byte>, c: seq<byte>)
    requires |packet| >= 2
    ensures Cut(Enframe(packet) + c) == Some(Frame(Enframe(packet))) <==> Survives(packet)
  {
    var f := Enframe(packet);
    var b := f + c;
    assert PairAt(b, SMALL_X, SMALL_X, 0);
    assert FindPair(b, SMALL_X, SMALL_X, 0) == 0;
    assert b[..|f|] == f;
    assert PairAt(b, CR, LF, |f| - 2);
    assert forall i :: 2 <= i < |f| - 2 ==> PairAt(b, CR, LF, i) == PairAt(packet, CR, LF, i - 2);
    var end := FindPair(b, CR, LF, EarliestEnd(b));
    if Survives(packet) {
      assert end == |f| - 2;
    } else if packet[0] as int <= |packet| + 2 {
      var i :| packet[0] as int - 2 <= i && PairAt(packet, CR, LF, i);
      assert PairAt(b, CR, LF, i + 2);
    }
  }

  /** For the default layout: exactly when no CR LF lies within the last three bytes. */
  lemma SurvivesDefaultLayout(proto: byte, payload: seq<byte>)
    requires Packed(proto, payload).Some?
    ensures var p := Packed(proto, payload).value;
            Survives(p) <==> !PairAt(p, CR, LF, |p| - 3) && !PairAt(p, CR, LF, |p| - 2)
  {
  }

  /** One pass over a stream of enframed packets gives them all back if and only if each of them survives. */
  lemma {:induction false} StreamTransparency(packets: seq<seq<byte>>)
    requires forall p :: p in packets ==> |p| >= 2
    ensures Sound(Cut)
    ensures var parse := Deframe(Cut, Flatten(EnframeAll(packets)));
            (Reports(parse.spans) == PacketMsgs(packets) && parse.rest == [])
            <==> forall p :: p in packets ==> Survives(p)
    decreases |packets|
  {
    CutSound();
    if packets != [] {
      var p, tail := packets[0], packets[1..];
      var more := Flatten(EnframeAll(tail));
      assert packets == [p] + tail;
      FramedCut(p, more);
      StreamTransparency(tail);
      if Survives(p) {
        SurvivorFirst(p, more);
        assert PacketMsgs(packets)[1..] == PacketMsgs(tail);
      } else {
        FirstReport(p, Enframe(p) + more);
      }
    }
  }

  /** A packet that survives is reported first, and the rest of the stream is deframed as if by itself. */
  lemma SurvivorFirst(p: seq<byte>, more: seq<byte>)
    requires |p| >= 2 && Survives(p)
    ensures Sound(Cut)
    ensures var parse, later := Deframe(Cut, Enframe(p) + more), Deframe(Cut, more);
            && Reports(parse.spans) == [Packet(p)] + Reports(later.spans)
            && Reports(parse.spans)[1..] == Reports(later.spans)
            && parse.rest == later.rest
  {
    CutSound();
    FramedCut(p, more);
    var f := Enframe(p);
    assert (f + more)[|f|..] == more;
    assert Inside(f) == p;
    var later := Deframe(Cut, more);
    assert ([Frame(f)] + later.spans)[1..] == later.spans;
  }

  /** Only the enframed packet itself is reported as that packet. */
  lemma FirstReport(p: seq<byte>, b: seq<byte>)
    requires |p| >= 2
    ensures Sound(Cut)
    ensures var msgs := Reports(Deframe(Cut, b).spans);
            msgs != [] && msgs[0] == Packet(p) ==> Cut(b) == Some(Frame(Enframe(p)))
  {
    CutSound();
    if Cut(b).Some? && Cut(b).value.Frame? {
      FrameShape(b);
    }
  }

  /** A fresh stream that receives one enframed packet in one segment. */
  lemma PacketTransparency(packet: seq<byte>)
    requires 2 <= |packet| && |packet| + 4 <= MAXBUFFER
    ensures Receive([], Enframe(packet)) == Received([Packet(packet)], []) <==> Survives(packet)
  {
    var f := Enframe(packet);
    assert [] + f == f;
    assert Flatten(EnframeAll([packet])) == f + [] == f;
    assert PacketMsgs([packet]) == [Packet(packet)];
    StreamTransparency([packet]);
  }

  lemma DefaultTransparency(proto: byte, payload: seq<byte>)
    requires |payload| < 255
    ensures Packed(proto, payload).Some?
    ensures var p := Packed(proto, payload).value;
            Receive([], Enframe(p)) == Received([Packet(p)], []) <==>
            !PairAt(p, CR, LF, |p| - 3) && !PairAt(p, CR, LF, |p| - 2)
  {
    SurvivesDefaultLayout(proto, payload);
    PacketTransparency(Packed(proto, payload).value);
  }

  /** The same for every way to cut that stream into segments. */
  lemma RunTransparency(packets: seq<seq<byte>>, segments: seq<seq<byte>>)
    requires forall p :: p in packets ==> |p| >= 2
    requires Flatten(segments) == Flatten(EnframeAll(packets))
    requires NoOverflow([], segments)
    ensures Run([], segments) == Received(PacketMsgs(packets), []) <==> forall p :: p in packets ==> Survives(p)
  {
    CutSound();
    var stream := Flatten(segments);
    assert [] + stream == stream;
    SegmentationExact([], segments);
    var whole := Deframe(Cut, stream);
    assert Run([], segments) == Received(Reports(whole.spans), whole.rest);
    StreamTransparency(packets);
  }

  /** Surviving packets of bounded size, so far received in segments of bounded size. */
  ghost predicate Conforms(packets: seq<seq<byte>>, segments: seq<seq<byte>>, longest: nat, widest: nat) {
    && (forall p :: p in packets ==> |p| >= 2 && Survives(p) && |p| + 4 <= longest)
    && (forall s :: s in segments ==> |s| <= widest)
    && Flatten(segments) <= Flatten(EnframeAll(packets))
  }

  lemma SurvivorsAtomic(packets: seq<seq<byte>>, longest: nat)
    requires forall p :: p in packets ==> |p| >= 2 && Survives(p) && |p| + 4 <= longest
    ensures Atomic(Cut, EnframeAll(packets))
    ensures forall f :: f in EnframeAll(packets) ==> |f| <= longest
  {
    var frames := EnframeAll(packets);
    forall f | f in frames ensures Cut(f) == Some(Frame(f)) && |f| <= longest {
      var i :| 0 <= i < |frames| && frames[i] == f;
      FramedCut(packets[i], []);
      assert f + [] == f && packets[i] in packets;
    }
  }

  /** Within the bound conforming traffic never overflows the buffer, and all of it comes back. */
  lemma ConformingTraffic(packets: seq<seq<byte>>, segments: seq<seq<byte>>, longest: nat, widest: nat)
    requires Conforms(packets, segments, longest, widest)
    requires longest - 1 + widest <= MAXBUFFER && widest <= MAXBUFFER
    ensures NoOverflow([], segments)
    ensures Flatten(segments) == Flatten(EnframeAll(packets)) ==>
              Run([], segments) == Received(PacketMsgs(packets), [])
  {
    CutSound();
    CutStable();
    var frames := EnframeAll(packets);
    SurvivorsAtomic(packets, longest);
    assert [] + Flatten(segments) == Flatten(segments);
    ConformingFits(Cut, frames, [], segments, longest, widest, MAXBUFFER);
    if Flatten(segments) == Flatten(frames) {
      RunTransparency(packets, segments);
    }
  }

  lemma SameFrames(f: seq<byte>, packet: seq<byte>, pieces: seq<seq<byte>>, packets: seq<seq<byte>>)
    requires f == Enframe(packet) && |pieces| == |packets|
    requires (forall p :: p in pieces ==> p == f) && (forall p :: p in packets ==> p == packet)
    ensures pieces == EnframeAll(packets)
  {
    forall i | 0 <= i < |pieces| ensures pieces[i] == EnframeAll(packets)[i] {
      assert pieces[i] in pieces && packets[i] in packets;
    }
  }

  /** Beyond the bound there is conforming traffic that overflows, with frames as long as allowed. */
  lemma BoundNeeded(longest: nat, widest: nat) returns (packets: seq<seq<byte>>, segments: seq<seq<byte>>)
    requires longest >= 6 && widest >= 1 && longest - 1 + widest > MAXBUFFER
    ensures Conforms(packets, segments, longest, widest) && !NoOverflow([], segments)
  {
    CutSound();
    CutStable();
    var packet: seq<byte> := seq(longest - 4, _ => 0);
    var f := Enframe(packet);
    FramedCut(packet, []);
    assert f + [] == f;
    var pieces;
    pieces, segments := TooNarrow(Cut, f, widest, MAXBUFFER);
    packets := Repeat(packet, |pieces|);
    SameFrames(f, packet, pieces, packets);
  }

  /** The bound is sharp: it separates the sizes for which no conforming traffic overflows from all others. */
  lemma BoundExact(longest: nat, widest: nat)
    requires longest >= 6 && widest >= 1
    ensures (forall packets, segments :: Conforms(packets, segments, longest, widest) ==> NoOverflow([], segments))
            <==> longest - 1 + widest <= MAXBUFFER
  {
    if longest - 1 + widest <= MAXBUFFER {
      forall packets, segments | Conforms(packets, segments, longest, widest) ensures NoOverflow([], segments) {
        ConformingTraffic(packets, segments, longest, widest);
      }
    } else {
      var packets, segments := BoundNeeded(longest, widest);
      assert Conforms(packets, segments, longest, widest);
    }
  }

  lemma EarlyEndCut(proto: byte, payload: seq<byte>)
    requires Packed(proto, payload + [CR, LF]).Some?
    ensures var p := Packed(proto, payload + [CR, LF]).value;
            Cut(Enframe(p)) == Some(Frame(Enframe(p[..|p| - 2])))
  {
    var p := Packed(proto, payload + [CR, LF]).value;
    var f := Enframe(p);
    var n := |f| - 2;
    assert PairAt(f, SMALL_X, SMALL_X, 0);
    assert PairAt(f, CR, LF, n - 2) && !PairAt(f, CR, LF, n - 3);
    assert EarliestEnd(f) == n - 3;
    assert f[..n] == Enframe(p[..|p| - 2]);
  }

  /** A packet of the default layout whose payload ends in CR LF loses these two bytes, and they stay behind. */
  lemma TrailingDelimiterLost(proto: byte, payload: seq<byte>)
    requires Packed(proto, payload + [CR, LF]).Some?
    ensures var p := Packed(proto, payload + [CR, LF]).value;
            Receive([], Enframe(p)) == Received([Packet(p[..|p| - 2])], [CR, LF])
  {
    CutSound();
    var p := Packed(proto, payload + [CR, LF]).value;
    var f, kept := Enframe(p), Enframe(p[..|p| - 2]);
    EarlyEndCut(proto, payload);
    assert f == kept + [CR, LF] && Inside(kept) == p[..|p| - 2];
    FrameAndRest(kept, [CR, LF]);
  }

  lemma FrameAndRest(f: seq<byte>, rest: seq<byte>)
    requires Cut(f + rest) == Some(Frame(f)) && Cut(rest).None? && |f| + |rest| <= MAXBUFFER
    ensures Receive([], f + rest) == Received([Report(Frame(f))], rest)
  {
    CutSound();
    assert (f + rest)[|f|..] == rest;
    assert Deframe(Cut, rest) == Parse([], rest);
    assert Deframe(Cut, f + rest) == Parse([Frame(f)] + [], rest);
    assert [] + (f + rest) == f + rest;
  }
}
