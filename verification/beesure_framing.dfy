/** What the beesure deframer guarantees over whole streams, and what is lost when its buffer overflows. */
module BeesureFraming {
  import opened Bytes
  import opened Deframing
  import opened HexText
  import opened Beesure

  /** The cached length describes the header at the front of the buffer, and no frame is ready to be cut. */
  predicate InSync(st: State) {
    && Cut(st.buffer).None?
    && st.datalen == Pending(st.buffer)
    && (HeaderAt(st.buffer, 0) ==> st.imei.Some?)
  }

  lemma ReferenceInSync(imei: Option<seq<byte>>, b: seq<byte>)
    ensures InSync(Reference(imei, b).state)
  {
    CutSound();
    Settled(Cut, b);
    var parse := Deframe(Cut, b);
    PendingHeaderLatches(parse.spans, parse.rest);
  }

  lemma {:induction false} PendingHeaderLatches(spans: seq<Span>, rest: seq<byte>)
    ensures HeaderAt(rest, 0) ==> FirstImei(spans, rest).Some?
    decreases |spans|
  {
    if spans != [] {
      PendingHeaderLatches(spans[1..], rest);
    }
  }

  /** An arrival keeps the cached length right unless it overflows the buffer while a frame is awaited. */
  lemma SyncKept(st: State, segment: seq<byte>)
    requires InSync(st)
    ensures InSync(Receive(st, segment).state) <==> (|st.buffer + segment| <= MAXBUFFER || st.datalen == 0)
  {
    var b := st.buffer + segment;
    if |b| > MAXBUFFER {
      assert FindHeader([], 0) == -1;
    } else if st.datalen == 0 {
      ReferenceInSync(st.imei, b);
    } else {
      HeaderExtends(st.buffer, segment, 0);
      if |b| < st.datalen + 21 {
        FindsFirstHeader(b, 0);
      } else {
        ReferenceInSync(st.imei, b[st.datalen + 21..]);
      }
    }
  }

  /** Delivery of a longer parse passes through a point from which the shorter parse would have ended. */
  lemma {:induction false} DeliverSplit(msgs: seq<Msg>, imei: Option<seq<byte>>, spans: seq<Span>, rest: seq<byte>,
                                        more: seq<Span>, end: seq<byte>)
    returns (mid: seq<Msg>, latched: Option<seq<byte>>)
    ensures Deliver(msgs, imei, Parse(spans, rest)) == Deliver(mid, latched, Parse([], rest))
    ensures Deliver(msgs, imei, Parse(spans + more, end)) == Deliver(mid, latched, Parse(more, end))
    decreases |spans|
  {
    if spans == [] {
      assert spans + more == more;
      return msgs, imei;
    }
    var later := spans[1..];
    assert (spans + more)[1..] == later + more;
    match spans[0] {
      case Junk(junk) =>
        mid, latched := DeliverSplit(msgs + [Skip(junk)], imei, later, rest, more, end);
      case Frame(f) =>
        var l := LatchHeader(imei, f);
        var own := msgs + Notice(l, f) + (if f == [] then [] else [Body(f)]);
        mid, latched := DeliverSplit(own, l, later, rest, more, end);
    }
  }

  /** The notice that is given a second time: a header of declared length 0 is still at the front, unfinished. */
  function Restated(st: State): seq<Msg> {
    if st.datalen == 0 then Notice(st.imei, st.buffer) else []
  }

  /**
    One arrival without overflow extends the reference of the whole history by exactly the new messages;
    the only difference is the mismatch notice that is restated.
  */
  lemma CallExact(h: seq<byte>, segment: seq<byte>) returns (news: seq<Msg>)
    requires |Reference(None, h).state.buffer + segment| <= MAXBUFFER
    ensures var before, after := Reference(None, h), Reference(None, h + segment);
            var call := Receive(before.state, segment);
            && call.msgs == Restated(before.state) + news
            && after == Received(before.msgs + news, call.state)
  {
    CutSound();
    CutStable();
    var before, after := Reference(None, h), Reference(None, h + segment);
    var st := before.state;
    var first := Deframe(Cut, h);
    var b := first.rest + segment;
    var second := Deframe(Cut, b);
    DeframeAppend(Cut, h, segment);
    RemainingIsReference([], None, h);
    RemainingIsReference([], None, h + segment);
    assert [] + before.msgs == before.msgs && [] + after.msgs == after.msgs;
    var mid, latched := DeliverSplit([], None, first.spans, first.rest, second.spans, second.rest);
    assert before == Deliver(mid, latched, Parse([], first.rest));
    assert after == Remaining(mid, latched, b);
    var l := LatchHeader(latched, first.rest);
    assert before.msgs == mid + Notice(l, first.rest) && st == State(first.rest, l, Pending(first.rest));
    if HeaderAt(first.rest, 0) {
      news := Awaited(l, b, st.datalen).msgs;
      AwaitedExtends(mid, latched, first.rest, segment);
    } else {
      news := Reference(l, b).msgs;
      RemainingIsReference(mid, latched, b);
      assert mid + [] == mid && [] + news == news;
    }
  }

  lemma AwaitedExtends(msgs: seq<Msg>, imei: Option<seq<byte>>, rest: seq<byte>, segment: seq<byte>)
    requires HeaderAt(rest, 0)
    ensures var l, b := LatchHeader(imei, rest), rest + segment;
            var more := Awaited(l, b, DataLen(rest));
            && Remaining(msgs, imei, b) == Received(msgs + Notice(l, rest) + more.msgs, more.state)
            && Resume(State(b, l, DataLen(rest))) ==
               Received(Restated(State(rest, l, DataLen(rest))) + more.msgs, more.state)
  {
    var l, b, n := LatchHeader(imei, rest), rest + segment, DataLen(rest);
    HeaderExtends(rest, segment, 0);
    SeeHeader(msgs, imei, b);
    assert msgs + [] == msgs;
    AfterHeaderIsAwaited(msgs + Notice(l, b), l, b, n);
    var more := Awaited(l, b, n);
    if n == 0 {
      SeeHeader([], l, b);
      AfterHeaderIsAwaited(Notice(l, b), l, b, n);
      RemainingIsReference([], l, b);
      var r := Reference(l, b);
      assert [] + r.msgs == r.msgs && [] + Notice(l, b) == Notice(l, b);
    } else {
      assert [] + more.msgs == more.msgs;
    }
  }

  /** The messages without restatements: a mismatch notice right after an equal one is dropped. */
  function Collapse(msgs: seq<Msg>): seq<Msg> {
    if |msgs| <= 1 then msgs
    else
      var init, last := msgs[..|msgs| - 1], msgs[|msgs| - 1];
      if last.Mismatch? && last == msgs[|msgs| - 2] then Collapse(init) else Collapse(init) + [last]
  }

  lemma {:induction false} CollapseKeepsLast(msgs: seq<Msg>)
    requires msgs != []
    ensures Collapse(msgs) != [] && Collapse(msgs)[|Collapse(msgs)| - 1] == msgs[|msgs| - 1]
  {
    if |msgs| > 1 {
      CollapseKeepsLast(msgs[..|msgs| - 1]);
    }
  }

  lemma CollapseSnoc(msgs: seq<Msg>, m: Msg)
    ensures Collapse(msgs + [m]) ==
            if msgs != [] && m.Mismatch? && m == msgs[|msgs| - 1] then Collapse(msgs) else Collapse(msgs) + [m]
  {
    assert (msgs + [m])[..|msgs|] == msgs;
  }

  /** No mismatch notice comes right after another one. */
  predicate NoStutter(msgs: seq<Msg>) {
    forall i :: 0 < i < |msgs| ==> !(msgs[i].Mismatch? && msgs[i - 1].Mismatch?)
  }

  lemma {:induction false} CollapseExtends(msgs: seq<Msg>, news: seq<Msg>)
    requires NoStutter(Collapse(msgs) + news)
    ensures Collapse(msgs + news) == Collapse(msgs) + news
    decreases |news|
  {
    if news == [] {
      assert msgs + news == msgs && Collapse(msgs) + news == Collapse(msgs);
    } else {
      var m, tail := news[0], news[1..];
      var whole := Collapse(msgs) + news;
      if msgs != [] {
        CollapseKeepsLast(msgs);
        assert whole[|Collapse(msgs)|] == m && whole[|Collapse(msgs)| - 1] == msgs[|msgs| - 1];
      }
      CollapseSnoc(msgs, m);
      assert news == [m] + tail;
      Assoc(msgs, [m], tail);
      Assoc(Collapse(msgs), [m], tail);
      CollapseExtends(msgs + [m], tail);
    }
  }

  /** In the reference a mismatch notice is always followed by the fate of the frame it is about. */
  lemma {:induction false} SpansMsgsNoStutter(latched: Option<seq<byte>>, spans: seq<Span>, rest: seq<byte>)
    requires forall s :: s in spans && s.Frame? ==> s.bytes != []
    ensures NoStutter(SpansMsgs(latched, spans) + Notice(latched, rest))
    decreases |spans|
  {
    if spans != [] {
      SpansMsgsNoStutter(latched, spans[1..], rest);
      var own, tail := SpanMsgs(latched, spans[0]), SpansMsgs(latched, spans[1..]) + Notice(latched, rest);
      Assoc(own, SpansMsgs(latched, spans[1..]), Notice(latched, rest));
      assert spans[0] in spans;
      assert !own[|own| - 1].Mismatch?;
      assert |own| <= 2;
    }
  }

  lemma {:induction false} SpansNonempty(b: seq<byte>)
    ensures Sound(Cut)
    ensures forall s :: s in Deframe(Cut, b).spans ==> s.bytes != []
    decreases |b|
  {
    CutSound();
    if Cut(b).Some? {
      SpansNonempty(b[|Cut(b).value.bytes|..]);
    }
  }

  lemma ReferenceNoStutter(imei: Option<seq<byte>>, b: seq<byte>)
    ensures NoStutter(Reference(imei, b).msgs)
  {
    SpansNonempty(b);
    var parse := Deframe(Cut, b);
    SpansMsgsNoStutter(Latch(imei, parse), parse.spans, parse.rest);
  }

  ghost predicate NoOverflow(st: State, segments: seq<seq<byte>>)
    decreases |segments|
  {
    segments == [] ||
    (|st.buffer + segments[0]| <= MAXBUFFER && NoOverflow(Receive(st, segments[0]).state, segments[1..]))
  }

  /** How many notices a run restates. */
  function Restatements(st: State, segments: seq<seq<byte>>): nat
    decreases |segments|
  {
    if segments == [] then 0
    else |Restated(st)| + Restatements(Receive(st, segments[0]).state, segments[1..])
  }

  /** The induction behind `SegmentationExact`: `h` has been received and `raw` handed out for it. */
  lemma {:induction false} RunFollowsReference(h: seq<byte>, raw: seq<Msg>, segments: seq<seq<byte>>)
    requires Collapse(raw) == Reference(None, h).msgs
    requires NoOverflow(Reference(None, h).state, segments)
    ensures var before, after := Reference(None, h), Reference(None, h + Flatten(segments));
            var run := Run(before.state, segments);
            && run.state == after.state
            && Collapse(raw + run.msgs) == after.msgs
            && |before.msgs| + |run.msgs| == |after.msgs| + Restatements(before.state, segments)
            && (Restatements(before.state, segments) == 0 ==> before.msgs + run.msgs == after.msgs)
    decreases |segments|
  {
    var before := Reference(None, h);
    if segments == [] {
      assert h + Flatten(segments) == h;
      assert raw + [] == raw && before.msgs + [] == before.msgs;
    } else {
      var s := segments[0];
      var call := Receive(before.state, s);
      var news := CallExact(h, s);
      var next := Reference(None, h + s);
      RestatedIsLast(h);
      CollapseRestated(raw, Restated(before.state));
      ReferenceNoStutter(None, h + s);
      Assoc(raw, Restated(before.state), news);
      CollapseExtends(raw + Restated(before.state), news);
      RunFollowsReference(h + s, raw + call.msgs, segments[1..]);
      Assoc(h, s, Flatten(segments[1..]));
      var later := Run(call.state, segments[1..]);
      Assoc(raw, call.msgs, later.msgs);
      if Restatements(before.state, segments) == 0 {
        assert call.msgs == news;
        Assoc(before.msgs, news, later.msgs);
      }
    }
  }

  /** What is restated is what was said last. */
  lemma RestatedIsLast(h: seq<byte>)
    ensures var r := Reference(None, h);
            var again := Restated(r.state);
            again == [] || (|again| == 1 && again[0].Mismatch? && r.msgs != [] && r.msgs[|r.msgs| - 1] == again[0])
  {
  }

  lemma CollapseRestated(raw: seq<Msg>, again: seq<Msg>)
    requires again == [] || (|again| == 1 && again[0].Mismatch?)
    requires again != [] ==> Collapse(raw) != [] && Collapse(raw)[|Collapse(raw)| - 1] == again[0]
    ensures Collapse(raw + again) == Collapse(raw)
  {
    if again == [] {
      assert raw + again == raw;
    } else {
      CollapseKeepsLast(raw);
      assert again == [again[0]];
      CollapseSnoc(raw, again[0]);
    }
  }

  /**
    However a stream is cut into segments, a fresh deframer ends in the state of the stateless reference
    and hands out its messages, up to restated notices; it hands out exactly those if and only if no call
    starts with an unfinished zero-length frame of a foreign imei at the front of the buffer.
  */
  lemma SegmentationExact(segments: seq<seq<byte>>)
    requires NoOverflow(FRESH, segments)
    ensures var whole := Reference(None, Flatten(segments));
            var run := Run(FRESH, segments);
            && run.state == whole.state
            && Collapse(run.msgs) == whole.msgs
            && Packets(run.msgs) == Packets(whole.msgs)
            && (run.msgs == whole.msgs <==> Restatements(FRESH, segments) == 0)
  {
    ReferenceOfNothing(None);
    var h: seq<byte> := [];
    assert h + Flatten(segments) == Flatten(segments);
    RunFollowsReference([], [], segments);
    var run := Run(FRESH, segments);
    assert [] + run.msgs == run.msgs;
    PacketsOfCollapse(run.msgs);
  }

  /** The spans behind a run's packets and its buffer are the bytes received, in order and complete. */
  lemma RunConserves(segments: seq<seq<byte>>)
    requires NoOverflow(FRESH, segments)
    ensures Sound(Cut)
    ensures var spans := Deframe(Cut, Flatten(segments)).spans;
            var run := Run(FRESH, segments);
            && Packets(run.msgs) == FramesEndingInBracket(spans)
            && Flatten(Pieces(spans)) + run.state.buffer == Flatten(segments)
  {
    var stream := Flatten(segments);
    CutSound();
    SegmentationExact(segments);
    Conservation(Cut, stream);
    var parse := Deframe(Cut, stream);
    var latched := Latch(None, parse);
    SpansNonempty(stream);
    PacketsOfSpans(latched, parse.spans);
    PacketsAppend(SpansMsgs(latched, parse.spans), Notice(latched, parse.rest));
  }

  /** The span itself, if it is a frame that ends in `]`. */
  function Bracketed(span: Span): seq<seq<byte>> {
    match span
    case Junk(_) => []
    case Frame(f) => if f != [] && f[|f| - 1] == SHUT then [f] else []
  }

  function FramesEndingInBracket(spans: seq<Span>): seq<seq<byte>> {
    if spans == [] then [] else Bracketed(spans[0]) + FramesEndingInBracket(spans[1..])
  }

  lemma PacketsSnoc(msgs: seq<Msg>, m: Msg)
    ensures Packets(msgs + [m]) == Packets(msgs) + (if m.Packet? then [m.data] else [])
  {
    assert (msgs + [m])[..|msgs|] == msgs;
  }

  lemma {:induction false} PacketsAppend(a: seq<Msg>, b: seq<Msg>)
    ensures Packets(a + b) == Packets(a) + Packets(b)
    decreases |b|
  {
    if b == [] {
      assert a + b == a;
    } else {
      var init, last := b[..|b| - 1], b[|b| - 1];
      PacketsAppend(a, init);
      PacketsSnoc(a + init, last);
      assert b == init + [last];
      Assoc(a, init, [last]);
      Assoc(Packets(a), Packets(init), if last.Packet? then [last.data] else []);
    }
  }

  lemma PacketsOfOne(m: Msg)
    ensures Packets([m]) == if m.Packet? then [m.data] else []
  {
    assert [m][..0] == [];
  }

  lemma PacketsOfSpan(latched: Option<seq<byte>>, span: Span)
    requires span.bytes != []
    ensures Packets(SpanMsgs(latched, span)) == Bracketed(span)
  {
    match span
    case Junk(junk) => PacketsOfOne(Skip(junk));
    case Frame(f) =>
      PacketsOfOne(Body(f));
      if Notice(latched, f) != [] {
        PacketsOfOne(Notice(latched, f)[0]);
      }
      PacketsAppend(Notice(latched, f), [Body(f)]);
  }

  lemma {:induction false} PacketsOfSpans(latched: Option<seq<byte>>, spans: seq<Span>)
    requires forall s :: s in spans ==> s.bytes != []
    ensures Packets(SpansMsgs(latched, spans)) == FramesEndingInBracket(spans)
    decreases |spans|
  {
    if spans != [] {
      assert spans[0] in spans;
      PacketsOfSpan(latched, spans[0]);
      PacketsOfSpans(latched, spans[1..]);
      PacketsAppend(SpanMsgs(latched, spans[0]), SpansMsgs(latched, spans[1..]));
    }
  }

  lemma ReferenceOfNothing(imei: Option<seq<byte>>)
    ensures Reference(imei, []) == Received([], State([], imei, 0))
  {
    assert FindHeader([], 0) == -1 && Cut([]).None?;
  }

  /** The packets among the messages, in order. */
  function Packets(msgs: seq<Msg>): seq<seq<byte>> {
    if msgs == [] then []
    else Packets(msgs[..|msgs| - 1]) + (if msgs[|msgs| - 1].Packet? then [msgs[|msgs| - 1].data] else [])
  }

  lemma {:induction false} PacketsOfCollapse(msgs: seq<Msg>)
    ensures Packets(Collapse(msgs)) == Packets(msgs)
  {
    if |msgs| > 1 {
      var init, last := msgs[..|msgs| - 1], msgs[|msgs| - 1];
      PacketsOfCollapse(init);
      assert (Collapse(init) + [last])[..|Collapse(init)|] == Collapse(init);
    }
  }

  /** What a consumer can rely on in a message. */
  predicate WellFormed(m: Msg) {
    match m
    case Packet(p) => HeaderAt(p, 0) && |p| == DataLen(p) + 21 && p[|p| - 1] == SHUT
    case Skipping(count, shown) => 0 < count && |shown| == if count < 64 then count else 64
    case Mismatch(imei, kept) => imei != kept
    case BadEnd(at) => at >= 20
    case Dropped => false
  }

  lemma {:induction false} ReferenceWellFormed(latched: Option<seq<byte>>, b: seq<byte>)
    ensures Sound(Cut)
    ensures forall m :: m in SpansMsgs(latched, Deframe(Cut, b).spans) ==> WellFormed(m)
    decreases |b|
  {
    CutSound();
    if Cut(b).Some? {
      var span := Cut(b).value;
      var later := Deframe(Cut, b[|span.bytes|..]);
      ReferenceWellFormed(latched, b[|span.bytes|..]);
      if span.Frame? {
        FrameShape(b);
      }
      assert ([span] + later.spans)[1..] == later.spans;
      assert SpansMsgs(latched, [span] + later.spans) == SpanMsgs(latched, span) + SpansMsgs(latched, later.spans);
    }
  }

  lemma BodyWellFormed(b: seq<byte>)
    requires HeaderAt(b, 0) && |b| >= DataLen(b) + 21
    ensures WellFormed(Body(b[..DataLen(b) + 21]))
  {
    assert FindHeader(b, 0) == 0;
    assert Cut(b) == Some(Frame(b[..DataLen(b) + 21]));
    FrameShape(b);
  }

  /** The awaited frame, once complete, is one that the reference would cut, too. */
  lemma AwaitedWellFormed(imei: Option<seq<byte>>, b: seq<byte>)
    requires HeaderAt(b, 0)
    ensures forall m :: m in Awaited(imei, b, DataLen(b)).msgs ==> WellFormed(m)
  {
    var n := DataLen(b) + 21;
    if |b| >= n {
      BodyWellFormed(b);
      AllWellFormed(imei, b[n..]);
      var rest := Reference(imei, b[n..]).msgs;
      assert Awaited(imei, b, DataLen(b)).msgs == [Body(b[..n])] + rest;
    }
  }

  /** While the cached length is right, whatever arrives produces well-formed messages, or one overflow notice. */
  lemma MessagesWellFormed(st: State, segment: seq<byte>)
    requires InSync(st)
    ensures forall m :: m in Receive(st, segment).msgs ==> WellFormed(m) || m.Dropped?
  {
    var b := st.buffer + segment;
    if |b| <= MAXBUFFER {
      if st.datalen == 0 {
        AllWellFormed(st.imei, b);
      } else {
        HeaderExtends(st.buffer, segment, 0);
        AwaitedWellFormed(st.imei, b);
      }
    }
  }

  /** Whenever the buffer overflows, no frame is awaited. */
  predicate OverflowsIdle(st: State, segments: seq<seq<byte>>)
    decreases |segments|
  {
    segments == [] ||
    ((|st.buffer + segments[0]| <= MAXBUFFER || st.datalen == 0)
     && OverflowsIdle(Receive(st, segments[0]).state, segments[1..]))
  }

  /** Up to the first overflow in mid-frame all messages of a run are well formed, save for the overflow notices. */
  lemma {:induction false} RunWellFormed(st: State, segments: seq<seq<byte>>)
    requires InSync(st) && OverflowsIdle(st, segments)
    ensures InSync(Run(st, segments).state)
    ensures forall m :: m in Run(st, segments).msgs ==> WellFormed(m) || m.Dropped?
    decreases |segments|
  {
    if segments != [] {
      MessagesWellFormed(st, segments[0]);
      SyncKept(st, segments[0]);
      RunWellFormed(Receive(st, segments[0]).state, segments[1..]);
    }
  }

  lemma AllWellFormed(imei: Option<seq<byte>>, b: seq<byte>)
    ensures forall m :: m in Reference(imei, b).msgs ==> WellFormed(m)
  {
    CutSound();
    ReferenceWellFormed(Latch(imei, Deframe(Cut, b)), b);
  }

  /** The imei that a packet identifies its sender by: ten digits of a header at its very front. */
  function ImeiFromPacket(p: seq<byte>): Option<seq<byte>> {
    var start := FrameStart(p);
    if start.offset == 0 && start.imei != [] then Some(start.imei) else None
  }

  lemma PacketIdentifies(p: seq<byte>)
    requires WellFormed(Packet(p))
    ensures ImeiFromPacket(p) == Some(ImeiOf(p))
    ensures |ImeiOf(p)| == 10 && forall c :: c in ImeiOf(p) ==> IsDigit(c)
  {
    FrameStartMeaning(p);
    HeaderBytes(p);
  }

  lemma PacketsOfRestated(st: State)
    ensures Packets(Restated(st)) == []
  {
    if Restated(st) != [] {
      PacketsOfOne(Restated(st)[0]);
    }
  }

  /** Seen through its packets alone, an arrival without overflow extends the reference, restated or not. */
  lemma PacketsExtend(h: seq<byte>, segment: seq<byte>)
    requires |Reference(None, h).state.buffer + segment| <= MAXBUFFER
    ensures var call := Receive(Reference(None, h).state, segment);
            && Reference(None, h + segment).state == call.state
            && Packets(Reference(None, h + segment).msgs) == Packets(Reference(None, h).msgs) + Packets(call.msgs)
  {
    var news := CallExact(h, segment);
    var st, msgs := Reference(None, h).state, Reference(None, h).msgs;
    PacketsAppend(msgs, news);
    PacketsAppend(Restated(st), news);
    PacketsOfRestated(st);
    assert [] + Packets(news) == Packets(news);
  }
}
