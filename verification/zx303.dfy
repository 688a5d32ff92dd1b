/** The zx303 stream: frames `xx <length> <proto> ... CR LF`, where the length only bounds the end from below. */
module Zx303 {
  import opened Bytes
  import opened Deframing

  const MAXBUFFER: nat := 4096

  /** What `Recv` hands out: a packet without its framing, or one of the three diagnostics. */
  datatype Msg =
    | Packet(data: seq<byte>)
    | Undecodable(count: nat, shown: seq<byte>)
    | TooShort(data: seq<byte>)
    | Dropped

  /** The earliest offset at which the frame at the front of `b` may end. */
  function EarliestEnd(b: seq<byte>): nat
    requires |b| >= 3
  {
    if b[2] == 0 then 1 else b[2] as int
  }

  function Cut(b: seq<byte>): Option<Span> {
    var start := FindPair(b, SMALL_X, SMALL_X, 0);
    if start == -1 then None
    else if start > 0 then Some(Junk(b[..start]))
    else if |b| < 6 then None
    else
      var end := FindPair(b, CR, LF, EarliestEnd(b));
      if end == -1 then None else Some(Frame(b[..end + 2]))
  }

  lemma CutSound()
    ensures Sound(Cut)
  {
  }

  /** The first pair stays the first pair when more bytes arrive, unless there was none. */
  lemma FindPairStable(b: seq<byte>, c: seq<byte>, x: byte, y: byte, from: nat)
    requires FindPair(b, x, y, from) != -1
    ensures FindPair(b + c, x, y, from) == FindPair(b, x, y, from)
  {
    var at := FindPair(b, x, y, from);
    assert PairAt(b + c, x, y, at);
    assert forall i :: from <= i < at ==> PairAt(b + c, x, y, i) == PairAt(b, x, y, i);
  }

  lemma CutStable()
    ensures Stable(Cut)
  {
    forall b, c | Cut(b).Some? ensures Keeps(Cut, b, c) {
      var start := FindPair(b, SMALL_X, SMALL_X, 0);
      FindPairStable(b, c, SMALL_X, SMALL_X, 0);
      if start == 0 {
        FindPairStable(b, c, CR, LF, EarliestEnd(b));
        var end := FindPair(b, CR, LF, EarliestEnd(b));
        assert (b + c)[..end + 2] == b[..end + 2];
      } else {
        assert (b + c)[..start] == b[..start];
      }
    }
  }

  function Report(span: Span): Msg {
    match span
    case Junk(skipped) => Undecodable(|skipped|, Head(skipped, 64))
    case Frame(f) =>
      var packet := Inside(f);
      if |packet| < 2 then TooShort(packet) else Packet(packet)
  }

  /** The frame without its first and last two bytes. */
  function Inside(f: seq<byte>): seq<byte> {
    if |f| < 4 then [] else f[2..|f| - 2]
  }

  function Reports(spans: seq<Span>): (msgs: seq<Msg>)
    ensures |msgs| == |spans|
    ensures forall i :: 0 <= i < |spans| ==> msgs[i] == Report(spans[i])
  {
    if spans == [] then [] else [Report(spans[0])] + Reports(spans[1..])
  }

  lemma ReportsAppend(a: seq<Span>, b: seq<Span>)
    ensures Reports(a + b) == Reports(a) + Reports(b)
  {
  }

  datatype Received = Received(msgs: seq<Msg>, buffer: seq<byte>)

  /** One arrival: overflow empties the buffer, otherwise buffer and segment are deframed in one pass. */
  function Receive(buffer: seq<byte>, segment: seq<byte>): Received {
    CutSound();
    if |buffer + segment| > MAXBUFFER then Received([Dropped], [])
    else
      var parse := Deframe(Cut, buffer + segment);
      Received(Reports(parse.spans), parse.rest)
  }

  function Run(buffer: seq<byte>, segments: seq<seq<byte>>): Received
    decreases |segments|
  {
    if segments == [] then Received([], buffer)
    else
      var now := Receive(buffer, segments[0]);
      var later := Run(now.buffer, segments[1..]);
      Received(now.msgs + later.msgs, later.buffer)
  }

  /** The search for the delimiter: hop from one CR LF to the next until one is late enough. */
  method FindFrameEnd(buffer: seq<byte>) returns (frameend: int)
    requires PairAt(buffer, SMALL_X, SMALL_X, 0) && |buffer| >= 6
    ensures frameend == FindPair(buffer, CR, LF, EarliestEnd(buffer))
  {
    var expEnd := buffer[2] as int + 3;
    frameend := 0;
    while true
      invariant 0 <= frameend < |buffer|
      invariant frameend == 0 || frameend < expEnd - 3
      decreases |buffer| - frameend
    {
      frameend := FindPair(buffer, CR, LF, frameend + 1);
      if frameend == -1 || frameend >= expEnd - 3 {
        break;
      }
    }
  }

  /** What the deframing loop will have delivered when it stops, given what it has delivered so far. */
  ghost function Remaining(buffer: seq<byte>, msgs: seq<Msg>): Received {
    CutSound();
    var parse := Deframe(Cut, buffer);
    Received(msgs + Reports(parse.spans), parse.rest)
  }

  lemma TakeSpan(buffer: seq<byte>, span: Span, msgs: seq<Msg>)
    requires Cut(buffer) == Some(span) && |span.bytes| <= |buffer|
    ensures Remaining(buffer, msgs) == Remaining(buffer[|span.bytes|..], msgs + [Report(span)])
  {
    CutSound();
    var later := Deframe(Cut, buffer[|span.bytes|..]);
    assert ([span] + later.spans)[1..] == later.spans;
    Assoc(msgs, [Report(span)], Reports(later.spans));
  }

  lemma SkipJunk(buffer: seq<byte>, msgs: seq<Msg>)
    requires FindPair(buffer, SMALL_X, SMALL_X, 0) > 0
    ensures var at := FindPair(buffer, SMALL_X, SMALL_X, 0);
            && Remaining(buffer, msgs) == Remaining(buffer[at..], msgs + [Undecodable(at, Head(buffer[..at], 64))])
            && FindPair(buffer[at..], SMALL_X, SMALL_X, 0) == 0
  {
    var at := FindPair(buffer, SMALL_X, SMALL_X, 0);
    TakeSpan(buffer, Junk(buffer[..at]), msgs);
    assert PairAt(buffer[at..], SMALL_X, SMALL_X, 0);
  }

  lemma TakeFrame(buffer: seq<byte>, msgs: seq<Msg>)
    requires FindPair(buffer, SMALL_X, SMALL_X, 0) == 0 && |buffer| >= 6
    requires FindPair(buffer, CR, LF, EarliestEnd(buffer)) != -1
    ensures var end := FindPair(buffer, CR, LF, EarliestEnd(buffer));
            && 2 < end && end + 2 <= |buffer|
            && var packet := buffer[2..end];
               Remaining(buffer, msgs) ==
               Remaining(buffer[end + 2..], msgs + [if |packet| < 2 then TooShort(packet) else Packet(packet)])
  {
    var end := FindPair(buffer, CR, LF, EarliestEnd(buffer));
    assert PairAt(buffer, SMALL_X, SMALL_X, 0);
    assert end != 2 by {
      assert PairAt(buffer, CR, LF, end);
    }
    assert Inside(buffer[..end + 2]) == buffer[2..end];
    TakeSpan(buffer, Frame(buffer[..end + 2]), msgs);
  }

  lemma NoSpanLeft(buffer: seq<byte>, msgs: seq<Msg>)
    requires Cut(buffer).None?
    ensures Remaining(buffer, msgs) == Received(msgs, buffer)
  {
    CutSound();
  }

  class Stream {
    /** The descriptor of the connection it belongs to. */
    ghost const owner: int
    var buffer: seq<byte>

    constructor (ghost fd: int)
      ensures owner == fd && buffer == []
    {
      owner := fd;
      buffer := [];
    }

    method Recv(segment: seq<byte>) returns (msgs: seq<Msg>)
      modifies this
      ensures Received(msgs, buffer) == Receive(old(buffer), segment)
    {
      buffer := buffer + segment;
      if |buffer| > MAXBUFFER {
        buffer := [];
        return [Dropped];
      }
      msgs := [];
      ghost var whole := Remaining(buffer, msgs);
      while true
        invariant Remaining(buffer, msgs) == whole
        decreases |buffer|
      {
        var framestart := FindPair(buffer, SMALL_X, SMALL_X, 0);
        if framestart == -1 {
          NoSpanLeft(buffer, msgs);
          break;
        }
        if framestart > 0 {
          SkipJunk(buffer, msgs);
          msgs := msgs + [Undecodable(framestart, Head(buffer[..framestart], 64))];
          buffer := buffer[framestart..];
        }
        if |buffer| < 6 {
          NoSpanLeft(buffer, msgs);
          break;
        }
        var frameend := FindFrameEnd(buffer);
        if frameend == -1 {
          NoSpanLeft(buffer, msgs);
          break;
        }
        TakeFrame(buffer, msgs);
        var packet := buffer[2..frameend];
        buffer := buffer[frameend + 2..];
        if |packet| < 2 {
          msgs := msgs + [TooShort(packet)];
        } else {
          msgs := msgs + [Packet(packet)];
        }
      }
    }

    method Close() returns (rest: seq<byte>)
      modifies this
      ensures rest == old(buffer) && buffer == []
    {
      rest := buffer;
      buffer := [];
    }
  }
}
