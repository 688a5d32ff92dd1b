/** How often the beesure deframer repeats the notice that an imei is not the one it has latched. */
module BeesureNotices {
  import opened Bytes
  import opened Deframing
  import opened HexText
  import opened Beesure
  import opened BeesureFraming

  /** A notice that will be restated is about a header that declares no payload, and only its last byte is missing. */
  lemma RestatedHeader(st: State)
    requires InSync(st) && Restated(st) != []
    ensures |st.buffer| == 20 && HeaderAt(st.buffer, 0) && DataLen(st.buffer) == 0 && st.imei.Some?
    ensures Restated(st) == [Mismatch(ImeiOf(st.buffer), st.imei.value)]
  {
    FindsFirstHeader(st.buffer, 0);
  }

  /** The next byte completes that frame, so that there is nothing left to restate about it. */
  lemma RestatedThenDone(st: State, segment: seq<byte>)
    requires InSync(st) && Restated(st) != []
    requires segment != [] && |st.buffer + segment| <= MAXBUFFER
    ensures var later := Reference(st.imei, segment[1..]);
            Receive(st, segment) ==
            Received(Restated(st) + [Body(st.buffer + segment[..1])] + later.msgs, later.state)
  {
    var b := st.buffer + segment;
    RestatedHeader(st);
    HeaderExtends(st.buffer, segment, 0);
    SeeHeader([], st.imei, b);
    AfterHeaderIsAwaited(Restated(st), st.imei, b, 0);
    RemainingIsReference([], st.imei, b);
    assert b[..21] == st.buffer + segment[..1] && b[21..] == segment[1..];
    var r := Reference(st.imei, b);
    assert [] + r.msgs == r.msgs && [] + Restated(st) == Restated(st);
    var later := Reference(st.imei, segment[1..]);
    Assoc(Restated(st), [Body(st.buffer + segment[..1])], later.msgs);
  }

  /** It does happen: a foreign header of length 0, and its last byte in a segment of its own. */
  lemma RestatesOnEmptyFrame(header: seq<byte>, kept: seq<byte>, last: byte)
    requires |header| == 20 && HeaderAt(header, 0) && DataLen(header) == 0 && ImeiOf(header) != kept
    ensures var notice := Mismatch(ImeiOf(header), kept);
            Run(State([], Some(kept), 0), [header, [last]]) ==
            Received([notice, notice, Body(header + [last])], State([], Some(kept), 0))
  {
    var st, mid, notice := State([], Some(kept), 0), State(header, Some(kept), 0), Mismatch(ImeiOf(header), kept);
    FindsFirstHeader(header, 0);
    assert Cut(header).None?;
    assert [] + header == header;
    assert Receive(st, header) == Received([notice], mid);
    RestatedThenDone(mid, [last]);
    ReferenceOfNothing(Some(kept));
    assert [last][..1] == [last] && [last][1..] == [];
    var done := Receive(mid, [last]);
    assert done == Received([notice, Body(header + [last])], st);
    assert [header, [last]][1..] == [[last]] && [[last]][1..] == [];
    assert Run(mid, [[last]]) == Received(done.msgs + [], st);
  }

  /** If the last message is a notice, it is about the header that is still in the buffer. */
  lemma NoticeIsPending(imei: Option<seq<byte>>, b: seq<byte>)
    ensures var r := Reference(imei, b);
            r.msgs != [] && r.msgs[|r.msgs| - 1].Mismatch? ==> HeaderAt(r.state.buffer, 0)
  {
    SpansNonempty(b);
    var parse := Deframe(Cut, b);
    LastIsNoNotice(Latch(imei, parse), parse.spans);
  }

  lemma {:induction false} LastIsNoNotice(latched: Option<seq<byte>>, spans: seq<Span>)
    requires forall s :: s in spans ==> s.bytes != []
    ensures var msgs := SpansMsgs(latched, spans); msgs != [] ==> !msgs[|msgs| - 1].Mismatch?
    decreases |spans|
  {
    if spans != [] {
      assert spans[0] in spans;
      LastIsNoNotice(latched, spans[1..]);
    }
  }

  /** A notice at the start of `msgs` is not followed by another one. */
  predicate StartsSingle(msgs: seq<Msg>) {
    msgs == [] || !msgs[0].Mismatch? || (|msgs| >= 2 && !msgs[1].Mismatch?)
  }

  /** For a header of length 0 with the latched imei there is no notice, and the fate of its frame comes first. */
  lemma KnownHeaderDone(st: State, segment: seq<byte>)
    requires InSync(st) && st.datalen == 0 && HeaderAt(st.buffer, 0) && Restated(st) == []
    requires segment != [] && |st.buffer + segment| <= MAXBUFFER
    ensures var msgs := Receive(st, segment).msgs; msgs != [] && !msgs[0].Mismatch?
  {
    var b := st.buffer + segment;
    FindsFirstHeader(st.buffer, 0);
    HeaderExtends(st.buffer, segment, 0);
    SeeHeader([], st.imei, b);
    AfterHeaderIsAwaited([], st.imei, b, 0);
    RemainingIsReference([], st.imei, b);
  }

  /** A notice at the end is about the header that is still in the buffer. */
  predicate EndsPending(call: Received) {
    call.msgs != [] && call.msgs[|call.msgs| - 1].Mismatch? ==> HeaderAt(call.state.buffer, 0)
  }

  /** A header at the front stays there or has its fate told, after at most one more notice. */
  predicate Settles(st: State, call: Received) {
    HeaderAt(st.buffer, 0) ==>
      StartsSingle(call.msgs) && (call.msgs == [] ==> HeaderAt(call.state.buffer, 0))
  }

  lemma CallNotices(st: State, segment: seq<byte>)
    requires InSync(st) && segment != [] && |st.buffer + segment| <= MAXBUFFER
    ensures var call := Receive(st, segment); NoStutter(call.msgs) && EndsPending(call) && Settles(st, call)
  {
    if st.datalen == 0 {
      ReferenceNoStutter(st.imei, st.buffer + segment);
      NoticeIsPending(st.imei, st.buffer + segment);
      HeaderSettles(st, segment);
    } else {
      HeaderExtends(st.buffer, segment, 0);
      AwaitedNotices(st.imei, st.buffer + segment, st.datalen);
    }
  }

  lemma HeaderSettles(st: State, segment: seq<byte>)
    requires InSync(st) && segment != [] && |st.buffer + segment| <= MAXBUFFER && st.datalen == 0
    ensures Settles(st, Receive(st, segment))
  {
    if HeaderAt(st.buffer, 0) {
      if Restated(st) != [] {
        RestatedThenDone(st, segment);
        RestatedHeader(st);
      } else {
        KnownHeaderDone(st, segment);
      }
    }
  }

  lemma AwaitedNotices(imei: Option<seq<byte>>, b: seq<byte>, n: nat)
    requires HeaderAt(b, 0)
    ensures var call := Awaited(imei, b, n);
            && NoStutter(call.msgs) && EndsPending(call) && StartsSingle(call.msgs)
            && (call.msgs == [] ==> call.state.buffer == b)
  {
    if |b| >= n + 21 {
      var later := Reference(imei, b[n + 21..]);
      ReferenceNoStutter(imei, b[n + 21..]);
      NoticeIsPending(imei, b[n + 21..]);
      NoStutterCons(Body(b[..n + 21]), later.msgs);
    }
  }

  lemma NoStutterCons(m: Msg, msgs: seq<Msg>)
    requires !m.Mismatch? && NoStutter(msgs)
    ensures NoStutter([m] + msgs)
  {
    var all := [m] + msgs;
    forall i | 0 < i < |all| ensures !(all[i].Mismatch? && all[i - 1].Mismatch?) {
      assert i > 1 ==> !(msgs[i - 1].Mismatch? && msgs[i - 2].Mismatch?);
    }
  }

  /** Never three notices in a row. */
  predicate NoThrice(msgs: seq<Msg>) {
    forall i :: 1 < i < |msgs| ==> !(msgs[i].Mismatch? && msgs[i - 1].Mismatch? && msgs[i - 2].Mismatch?)
  }

  lemma JoinNoThrice(a: seq<Msg>, b: seq<Msg>)
    requires NoStutter(a) && NoThrice(b)
    requires a != [] && a[|a| - 1].Mismatch? ==> StartsSingle(b)
    ensures NoThrice(a + b)
  {
    var c := a + b;
    forall i | 1 < i < |c| ensures !(c[i].Mismatch? && c[i - 1].Mismatch? && c[i - 2].Mismatch?) {
      if i < |a| {
        assert !(a[i].Mismatch? && a[i - 1].Mismatch?);
      } else if i == |a| {
        assert !(a[i - 1].Mismatch? && a[i - 2].Mismatch?);
      } else if i >= |a| + 2 {
        var j := i - |a|;
        assert !(b[j].Mismatch? && b[j - 1].Mismatch? && b[j - 2].Mismatch?);
      }
    }
  }

  /** Over nonempty segments without overflow a notice is repeated at most once before the fate of its frame is told. */
  lemma {:induction false} NoticeRepeatedOnce(st: State, segments: seq<seq<byte>>)
    requires InSync(st) && NoOverflow(st, segments)
    requires forall s :: s in segments ==> s != []
    ensures NoThrice(Run(st, segments).msgs)
    ensures HeaderAt(st.buffer, 0) ==> StartsSingle(Run(st, segments).msgs)
    decreases |segments|
  {
    if segments != [] {
      var call := Receive(st, segments[0]);
      var later := Run(call.state, segments[1..]);
      assert segments[0] in segments && forall s :: s in segments[1..] ==> s in segments;
      CallNotices(st, segments[0]);
      SyncKept(st, segments[0]);
      NoticeRepeatedOnce(call.state, segments[1..]);
      JoinNoThrice(call.msgs, later.msgs);
      if call.msgs == [] {
        assert call.msgs + later.msgs == later.msgs;
      }
    }
  }
}
