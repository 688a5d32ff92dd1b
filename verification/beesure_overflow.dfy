/** When the beesure buffer overflows, and what an overflow in the middle of a frame leads to. */
module BeesureOverflow {
  import opened Bytes
  import opened Deframing
  import opened HexText
  import opened Beesure
  import opened BeesureFraming
  import opened BeesureTransparency

  // ----- the bound -----

  /** A frame of the longest kind: four hexadecimal digits declare at most 65535 bytes. */
  const LONGEST: nat := 0xFFFF + 21

  /** Frames of one terminal and of bounded size, so far received in segments of bounded size. */
  ghost predicate Conforms(imei: seq<byte>, frames: seq<seq<byte>>, segments: seq<seq<byte>>, longest: nat, widest: nat)
  {
    && (forall f :: f in frames ==> Built(f, imei) && |f| <= longest)
    && (forall s :: s in segments ==> |s| <= widest)
    && Flatten(segments) <= Flatten(frames)
  }

  lemma OverflowFits(segments: seq<seq<byte>>)
    ensures Sound(Cut)
    ensures NoOverflow(FRESH, segments) <==> Fits(Cut, [], segments, MAXBUFFER)
  {
    CutSound();
    ReferenceOfNothing(None);
    assert Deframe(Cut, []) == Parse([], []);
    FitsIsNoOverflow([], segments);
  }

  /** Beyond the bound there is conforming traffic that overflows, with frames as long as allowed. */
  lemma BoundNeeded(imei: seq<byte>, longest: nat, widest: nat)
    returns (frames: seq<seq<byte>>, segments: seq<seq<byte>>)
    requires IsImei(imei) && 21 <= longest <= LONGEST && longest - 1 + widest > MAXBUFFER
    ensures Conforms(imei, frames, segments, longest, widest) && !NoOverflow(FRESH, segments)
  {
    CutSound();
    CutStable();
    var f := BuildFrame(LT, imei, seq(longest - 21, _ => 0));
    BuiltFrameCut(LT, imei, seq(longest - 21, _ => 0));
    assert Cut([]).None? by {
      assert FindHeader([], 0) == -1;
    }
    frames, segments := TooNarrow(Cut, f, widest, MAXBUFFER);
    OverflowFits(segments);
  }

  /** The bound is sharp: it separates the sizes for which no conforming traffic overflows from all others. */
  lemma BoundExact(imei: seq<byte>, longest: nat, widest: nat)
    requires IsImei(imei) && 21 <= longest <= LONGEST
    ensures (forall frames, segments ::
               Conforms(imei, frames, segments, longest, widest) ==> NoOverflow(FRESH, segments))
            <==> longest - 1 + widest <= MAXBUFFER
  {
    if longest - 1 + widest <= MAXBUFFER {
      forall frames, segments | Conforms(imei, frames, segments, longest, widest) ensures NoOverflow(FRESH, segments) {
        BuiltFramesFit(imei, frames, segments, longest, widest);
      }
    } else {
      var frames, segments := BoundNeeded(imei, longest, widest);
      assert Conforms(imei, frames, segments, longest, widest);
    }
  }

  // ----- out of step -----

  lemma {:induction false} NothingArrives(imei: Option<seq<byte>>, segments: seq<seq<byte>>)
    requires Flatten(segments) == []
    ensures Run(State([], imei, 0), segments) == Received([], State([], imei, 0))
    decreases |segments|
  {
    if segments != [] {
      assert segments[0] == [] && [] + segments[0] == [];
      ReferenceOfNothing(imei);
      NothingArrives(imei, segments[1..]);
    }
  }

  /** With a cached length the bytes it asks for are cut off, however they arrive and whatever they hold. */
  lemma {:induction false} TakesAwaited(st: State, segments: seq<seq<byte>>)
    requires st.datalen > 0 && |st.buffer| < st.datalen + 21 <= MAXBUFFER
    requires |st.buffer + Flatten(segments)| == st.datalen + 21
    ensures Run(st, segments) == Received([Body(st.buffer + Flatten(segments))], State([], st.imei, 0))
    decreases |segments|
  {
    var x := st.buffer + Flatten(segments);
    if segments == [] {
      assert false;
    } else {
      var b, more := st.buffer + segments[0], segments[1..];
      assert x == b + Flatten(more);
      if |b| < |x| {
        TakesAwaited(st.(buffer := b), more);
        assert [] + [Body(x)] == [Body(x)];
      } else {
        assert Flatten(more) == [] && b == x;
        assert b[..|x|] == x && b[|x|..] == [];
        ReferenceOfNothing(st.imei);
        NothingArrives(st.imei, more);
        assert [Body(x)] + [] == [Body(x)];
      }
    }
  }

  lemma {:induction false} HexNumberBound(s: seq<byte>)
    requires AllHex(s)
    ensures HexNumber(s) < Power16(|s|)
  {
    if s != [] {
      HexNumberBound(s[..|s| - 1]);
    }
  }

  /** No header declares more than four digits can say. */
  lemma DataLenBound(b: seq<byte>)
    requires HeaderAt(b, 0)
    ensures DataLen(b) + 21 <= LONGEST
  {
    HeaderBytes(b);
    HexNumberBound(b[15..19]);
    assert Power16(4) == 0x1_0000 by {
      assert Power16(2) == 256;
    }
  }

  /**
    After an overflow in mid-frame the deframer is out of step: it cuts the awaited number of bytes from whatever
    comes next, in any segments, and hands them out as a packet if they happen to end in `]`.
  */
  lemma OverflowDesyncs(st: State, segment: seq<byte>, segments: seq<seq<byte>>)
    requires InSync(st) && st.datalen > 0 && |st.buffer + segment| > MAXBUFFER
    requires |Flatten(segments)| == st.datalen + 21
    ensures Run(st, [segment] + segments) == Received([Dropped, Body(Flatten(segments))], State([], st.imei, 0))
  {
    var lost := State([], st.imei, st.datalen);
    DataLenBound(st.buffer);
    assert [] + Flatten(segments) == Flatten(segments);
    TakesAwaited(lost, segments);
    assert ([segment] + segments)[0] == segment && ([segment] + segments)[1..] == segments;
    assert Receive(st, segment) == Received([Dropped], lost);
    assert [Dropped] + [Body(Flatten(segments))] == [Dropped, Body(Flatten(segments))];
  }

  lemma {:induction false} RunAppend(st: State, a: seq<seq<byte>>, b: seq<seq<byte>>)
    ensures var first := Run(st, a);
            var second := Run(first.state, b);
            Run(st, a + b) == Received(first.msgs + second.msgs, second.state)
    decreases |a|
  {
    if a == [] {
      assert a + b == b;
      assert [] + Run(st, b).msgs == Run(st, b).msgs;
    } else {
      var now := Receive(st, a[0]);
      RunAppend(now.state, a[1..], b);
      assert (a + b)[1..] == a[1..] + b;
      Assoc(now.msgs, Run(now.state, a[1..]).msgs, Run(Run(now.state, a[1..]).state, b).msgs);
    }
  }

  /** A fresh deframer with all but the last byte of a built frame, received byte by byte. */
  lemma AlmostComplete(vendor: seq<byte>, imei: seq<byte>, payload: seq<byte>)
    requires IsVendor(vendor) && IsImei(imei) && 0 < |payload| < 0x1_0000
    ensures var f := BuildFrame(vendor, imei, payload);
            var most := f[..|f| - 1];
            && |f| == |payload| + 21
            && Run(FRESH, Singles(most)) == Received([], State(most, Some(imei), |payload|))
            && InSync(State(most, Some(imei), |payload|))
  {
    var f := BuildFrame(vendor, imei, payload);
    var most := f[..|f| - 1];
    BuiltFrameCut(vendor, imei, payload);
    SinglesJoin(most);
    assert Flatten([f]) == f + [] == f;
    assert Built(f, imei);
    BuiltFramesFit(imei, [f], Singles(most), LONGEST, 1);
    SegmentationExact(Singles(most));
    ReferenceOfMost(f, imei, |payload|);
    ReferenceInSync(None, most);
    var run := Run(FRESH, Singles(most));
    if run.msgs != [] {
      CollapseKeepsLast(run.msgs);
    }
  }

  lemma ReferenceOfMost(f: seq<byte>, imei: seq<byte>, length: nat)
    requires Built(f, imei) && |f| == length + 21
    ensures Reference(None, f[..|f| - 1]) == Received([], State(f[..|f| - 1], Some(imei), length))
  {
    var most := f[..|f| - 1];
    CutSound();
    CutStable();
    PrefixWaits(Cut, f, most);
    FindsFirstHeader(f, 0);
    assert f == most + f[|most|..];
    HeaderExtends(most, f[|most|..], 0);
    assert FindHeader(f, 0) == 0;
    assert |Cut(f).value.bytes| == DataLen(f) + 21;
    assert Deframe(Cut, most) == Parse([], most);
    assert HeaderAt(most, 0);
  }

  /**
    It happens to well-behaved terminals: all but the last byte of a long frame, a read that is too much, and from
    then on the deframer takes any bytes for the frame that it still waits for.
  */
  lemma DesyncReached(vendor: seq<byte>, imei: seq<byte>, payload: seq<byte>, segment: seq<byte>,
                      segments: seq<seq<byte>>)
    requires IsVendor(vendor) && IsImei(imei) && 0 < |payload| < 0x1_0000
    requires |payload| + 20 + |segment| > MAXBUFFER
    requires |Flatten(segments)| == |payload| + 21
    ensures var f := BuildFrame(vendor, imei, payload);
            && f != []
            && Run(FRESH, Approach(f, 0, segment) + segments) ==
               Received([Dropped, Body(Flatten(segments))], State([], Some(imei), 0))
  {
    var f := BuildFrame(vendor, imei, payload);
    var most := f[..|f| - 1];
    AlmostComplete(vendor, imei, payload);
    OverflowDesyncs(State(most, Some(imei), |payload|), segment, segments);
    RunAppend(FRESH, Singles(most), [segment] + segments);
    assert f[0..|f| - 1] == most;
    Assoc(Singles(most), [segment], segments);
  }
}
