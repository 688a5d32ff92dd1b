/** The beesure stream: frames `[VV*IIIIIIIIII*LLLL*...]`, whose header declares the payload length in hex. */
module Beesure {
  import opened Bytes
  import opened Deframing
  import opened HexText

  const MAXBUFFER: nat := 65557

  /** What `Recv` hands out. `shown` is the text the notice quotes; a bad end is reported by its offset. */
  datatype Msg =
    | Packet(data: seq<byte>)
    | Skipping(count: nat, shown: seq<byte>)
    | Mismatch(imei: seq<byte>, kept: seq<byte>)
    | BadEnd(at: nat)
    | Dropped

  predicate IsWord(c: byte) {
    IsDigit(c) || 0x41 <= c <= 0x5A || 0x61 <= c <= 0x7A || c == 0x5F
  }

  /** Python's `int(s, 16)` on hex digits of either case. */
  function HexNumber(s: seq<byte>): nat
    requires forall c :: c in s ==> IsHex(c)
  {
    if s == [] then 0 else 16 * HexNumber(s[..|s| - 1]) + HexValue(s[|s| - 1])
  }

  /** The regular expression for a header: twenty bytes, each of a fixed class. */
  datatype Class = Exactly(b: byte) | Word | Digit | Hex

  predicate InClass(c: byte, cls: Class) {
    match cls
    case Exactly(b) => c == b
    case Word => IsWord(c)
    case Digit => IsDigit(c)
    case Hex => IsHex(c)
  }

  function ClassAt(k: nat): Class {
    if k == 0 then Exactly(OPEN)
    else if k < 3 then Word
    else if k == 3 then Exactly(STAR)
    else if k < 14 then Digit
    else if k == 14 then Exactly(STAR)
    else if k < 19 then Hex
    else Exactly(STAR)
  }

  predicate HeaderAt(b: seq<byte>, i: int) {
    0 <= i && i + 20 <= |b| && forall k :: 0 <= k < 20 ==> InClass(b[i + k], ClassAt(k))
  }

  lemma HeaderBytes(b: seq<byte>)
    requires HeaderAt(b, 0)
    ensures forall k :: 4 <= k < 14 ==> IsDigit(b[k])
    ensures forall k :: 15 <= k < 19 ==> IsHex(b[k])
    ensures forall c :: c in b[15..19] ==> IsHex(c)
  {
    forall k | 4 <= k < 14 ensures IsDigit(b[k]) {
      assert InClass(b[0 + k], ClassAt(k));
    }
    forall k | 15 <= k < 19 ensures IsHex(b[k]) {
      assert InClass(b[0 + k], ClassAt(k));
    }
  }

  function ImeiOf(b: seq<byte>): seq<byte>
    requires HeaderAt(b, 0)
  {
    b[4..14]
  }

  function DataLen(b: seq<byte>): nat
    requires HeaderAt(b, 0)
  {
    HeaderBytes(b);
    HexNumber(b[15..19])
  }

  /** The offset of the first header at or after `from`, or -1. */
  function FindHeader(b: seq<byte>, from: nat): int
    decreases |b| - from
  {
    if from + 20 > |b| then -1
    else if HeaderAt(b, from) then from
    else FindHeader(b, from + 1)
  }

  lemma {:induction false} FindsFirstHeader(b: seq<byte>, from: nat)
    ensures var at := FindHeader(b, from);
            && (at == -1 || (from <= at && HeaderAt(b, at)))
            && forall i :: from <= i && (at == -1 || i < at) ==> !HeaderAt(b, i)
    decreases |b| - from
  {
    if from + 20 <= |b| && !HeaderAt(b, from) {
      FindsFirstHeader(b, from + 1);
    }
  }

  lemma HeaderMoves(b: seq<byte>, at: nat)
    requires at <= |b|
    ensures HeaderAt(b[at..], 0) == HeaderAt(b, at)
  {
    if at + 20 <= |b| {
      assert forall k :: 0 <= k < 20 ==> b[at..][k] == b[at + k];
    }
  }

  datatype Start = Start(offset: int, vendor: seq<byte>, imei: seq<byte>, datalen: nat)

  /** The first header in the buffer and what it says, or offset -1. */
  function FrameStart(b: seq<byte>): Start {
    var at := FindHeader(b, 0);
    FindsFirstHeader(b, 0);
    if at == -1 then Start(-1, [], [], 0)
    else
      var f := b[at..];
      HeaderMoves(b, at);
      Start(at, f[1..3], ImeiOf(f), DataLen(f))
  }

  lemma FrameStartMeaning(b: seq<byte>)
    ensures var start := FrameStart(b);
            && start.offset == FindHeader(b, 0)
            && (start.offset < 0 ==> forall i :: !HeaderAt(b, i))
            && (start.offset >= 0 ==>
                  && start.offset <= |b| && HeaderAt(b[start.offset..], 0)
                  && (start.offset == 0 ==> b[start.offset..] == b)
                  && (forall i :: i < start.offset ==> !HeaderAt(b, i))
                  && start.imei == ImeiOf(b[start.offset..]) && start.datalen == DataLen(b[start.offset..]))
  {
    FindsFirstHeader(b, 0);
    var at := FindHeader(b, 0);
    if at >= 0 {
      HeaderMoves(b, at);
    }
  }

  /** A stateless step: skip to the first header, then wait for the bytes that this header declares. */
  function Cut(b: seq<byte>): Option<Span> {
    var at := FindHeader(b, 0);
    FindsFirstHeader(b, 0);
    if at == -1 then None
    else if at > 0 then Some(Junk(b[..at]))
    else if |b| < DataLen(b) + 21 then None
    else Some(Frame(b[..DataLen(b) + 21]))
  }

  lemma CutSound()
    ensures Sound(Cut)
  {
    forall b | Cut(b).Some? ensures Cut(b).value.bytes != [] && Cut(b).value.bytes <= b {
      FindsFirstHeader(b, 0);
    }
  }

  /** A header at the front is the same header whatever follows it. */
  lemma HeaderExtends(b: seq<byte>, c: seq<byte>, i: nat)
    ensures HeaderAt(b, i) ==> HeaderAt(b + c, i)
    ensures i + 20 <= |b| ==> HeaderAt(b + c, i) == HeaderAt(b, i)
    ensures HeaderAt(b, 0) ==> HeaderAt(b + c, 0) && ImeiOf(b + c) == ImeiOf(b) && DataLen(b + c) == DataLen(b)
  {
    if i + 20 <= |b| {
      assert forall k {:trigger ClassAt(k)} :: 0 <= k < 20 ==> (b + c)[i + k] == b[i + k];
    }
    if HeaderAt(b, 0) {
      assert forall k :: 0 <= k < 20 ==> (b + c)[k] == b[k];
      assert (b + c)[4..14] == b[4..14];
      assert (b + c)[15..19] == b[15..19];
    }
  }

  lemma FindHeaderStable(b: seq<byte>, c: seq<byte>)
    requires FindHeader(b, 0) != -1
    ensures FindHeader(b + c, 0) == FindHeader(b, 0)
  {
    var at := FindHeader(b, 0);
    FindsFirstHeader(b, 0);
    FindsFirstHeader(b + c, 0);
    forall i: nat | i <= at ensures HeaderAt(b + c, i) == HeaderAt(b, i) {
      HeaderExtends(b, c, i);
    }
  }

  lemma CutStable()
    ensures Stable(Cut)
  {
    forall b, c | Cut(b).Some? ensures Keeps(Cut, b, c) {
      FindHeaderStable(b, c);
      var at := FindHeader(b, 0);
      FindsFirstHeader(b, 0);
      if at == 0 {
        HeaderExtends(b, c, 0);
        assert (b + c)[..DataLen(b) + 21] == b[..DataLen(b) + 21];
      } else {
        assert (b + c)[..at] == b[..at];
      }
    }
  }

  /** A cut frame is a header, the bytes it declares, and one closing byte. */
  lemma FrameShape(b: seq<byte>)
    requires Cut(b).Some? && Cut(b).value.Frame?
    ensures var f := Cut(b).value.bytes;
            && HeaderAt(b, 0) && HeaderAt(f, 0)
            && |f| == DataLen(f) + 21 && ImeiOf(f) == ImeiOf(b) && DataLen(f) == DataLen(b)
  {
    var f := Cut(b).value.bytes;
    FindsFirstHeader(b, 0);
    assert forall k :: 0 <= k < 20 ==> f[k] == b[k];
    assert f[4..14] == b[4..14];
    assert f[15..19] == b[15..19];
  }

  /** The deframer's fields: the bytes collected, the latched imei, and the parsed length, where 0 is also "none". */
  datatype State = State(buffer: seq<byte>, imei: Option<seq<byte>>, datalen: nat)

  datatype Received = Received(msgs: seq<Msg>, state: State)

  const FRESH := State([], None, 0)

  function Body(f: seq<byte>): Msg
    requires f != []
  {
    if f[|f| - 1] == SHUT then Packet(f) else BadEnd(|f| - 1)
  }

  function Skip(junk: seq<byte>): Msg {
    Skipping(|junk|, Head(junk, 64))
  }

  /** The notice due when the header at the front of `b` is seen. */
  function Notice(latched: Option<seq<byte>>, b: seq<byte>): seq<Msg> {
    if HeaderAt(b, 0) && latched.Some? && latched.value != ImeiOf(b) then [Mismatch(ImeiOf(b), latched.value)] else []
  }

  function SpanMsgs(latched: Option<seq<byte>>, span: Span): seq<Msg> {
    match span
    case Junk(junk) => [Skip(junk)]
    case Frame(f) => Notice(latched, f) + (if f == [] then [] else [Body(f)])
  }

  function SpansMsgs(latched: Option<seq<byte>>, spans: seq<Span>): seq<Msg> {
    if spans == [] then [] else SpanMsgs(latched, spans[0]) + SpansMsgs(latched, spans[1..])
  }

  function HeaderImei(b: seq<byte>): Option<seq<byte>> {
    if HeaderAt(b, 0) then Some(ImeiOf(b)) else None
  }

  /** The imei of the first header in the stream, be it of a complete frame or of the one still awaited. */
  function FirstImei(spans: seq<Span>, rest: seq<byte>): Option<seq<byte>> {
    if spans == [] then HeaderImei(rest)
    else if spans[0].Frame? && HeaderAt(spans[0].bytes, 0) then Some(ImeiOf(spans[0].bytes))
    else FirstImei(spans[1..], rest)
  }

  function Latch(imei: Option<seq<byte>>, parse: Parse): Option<seq<byte>> {
    if imei.Some? then imei else FirstImei(parse.spans, parse.rest)
  }

  function Pending(rest: seq<byte>): nat {
    if HeaderAt(rest, 0) then DataLen(rest) else 0
  }

  /** The stateless reference: deframe `b` in one pass that parses every header where it stands. */
  function Reference(imei: Option<seq<byte>>, b: seq<byte>): Received {
    CutSound();
    var parse := Deframe(Cut, b);
    var latched := Latch(imei, parse);
    Received(SpansMsgs(latched, parse.spans) + Notice(latched, parse.rest),
             State(parse.rest, latched, Pending(parse.rest)))
  }

  /** With a length at hand, that many bytes and the closing one are a frame, whatever they hold. */
  function Awaited(imei: Option<seq<byte>>, b: seq<byte>, n: nat): Received {
    if |b| < n + 21 then Received([], State(b, imei, n))
    else
      var later := Reference(imei, b[n + 21..]);
      Received([Body(b[..n + 21])] + later.msgs, later.state)
  }

  function Resume(st: State): Received {
    if st.datalen == 0 then Reference(st.imei, st.buffer) else Awaited(st.imei, st.buffer, st.datalen)
  }

  /** One arrival. Overflow empties the buffer but keeps the imei and the cached length. */
  function Receive(st: State, segment: seq<byte>): Received {
    var b := st.buffer + segment;
    if |b| > MAXBUFFER then Received([Dropped], st.(buffer := []))
    else Resume(st.(buffer := b))
  }

  function Run(st: State, segments: seq<seq<byte>>): Received
    decreases |segments|
  {
    if segments == [] then Received([], st)
    else
      var now := Receive(st, segments[0]);
      var later := Run(now.state, segments[1..]);
      Received(now.msgs + later.msgs, later.state)
  }

  /** The imei in force once the header at the front of `b` has been seen. */
  function LatchHeader(imei: Option<seq<byte>>, b: seq<byte>): Option<seq<byte>> {
    if imei.Some? then imei else HeaderImei(b)
  }

  /** Hand the spans out one by one, latching the imei on the way: the deframing loop from here to its end. */
  ghost function Deliver(msgs: seq<Msg>, imei: Option<seq<byte>>, parse: Parse): Received
    decreases |parse.spans|
  {
    if parse.spans == [] then
      var latched := LatchHeader(imei, parse.rest);
      Received(msgs + Notice(latched, parse.rest), State(parse.rest, latched, Pending(parse.rest)))
    else
      var later := Parse(parse.spans[1..], parse.rest);
      match parse.spans[0]
      case Junk(junk) => Deliver(msgs + [Skip(junk)], imei, later)
      case Frame(f) =>
        var latched := LatchHeader(imei, f);
        Deliver(msgs + Notice(latched, f) + (if f == [] then [] else [Body(f)]), latched, later)
  }

  /** Delivering span by span comes to the reference's messages and latch. */
  lemma {:induction false} DeliverIsReference(msgs: seq<Msg>, imei: Option<seq<byte>>, parse: Parse)
    ensures var latched := Latch(imei, parse);
            Deliver(msgs, imei, parse) ==
            Received(msgs + (SpansMsgs(latched, parse.spans) + Notice(latched, parse.rest)),
                     State(parse.rest, latched, Pending(parse.rest)))
    decreases |parse.spans|
  {
    var latched := Latch(imei, parse);
    if parse.spans == [] {
      assert [] + Notice(latched, parse.rest) == Notice(latched, parse.rest);
    } else {
      var later := Parse(parse.spans[1..], parse.rest);
      var span := parse.spans[0];
      var own := SpanMsgs(latched, span);
      var tail := SpansMsgs(latched, later.spans) + Notice(latched, later.rest);
      Assoc(own, SpansMsgs(latched, later.spans), Notice(latched, later.rest));
      Assoc(msgs, own, tail);
      match span {
        case Junk(junk) =>
          DeliverIsReference(msgs + own, imei, later);
        case Frame(f) =>
          var l := LatchHeader(imei, f);
          assert Notice(l, f) == Notice(latched, f);
          Assoc(msgs, Notice(l, f), if f == [] then [] else [Body(f)]);
          DeliverIsReference(msgs + own, l, later);
      }
    }
  }

  /** What the deframing loop will have delivered when it stops, given what it has delivered so far. */
  ghost function Remaining(msgs: seq<Msg>, imei: Option<seq<byte>>, b: seq<byte>): Received {
    CutSound();
    Deliver(msgs, imei, Deframe(Cut, b))
  }

  lemma NoHeader(msgs: seq<Msg>, imei: Option<seq<byte>>, b: seq<byte>)
    requires FrameStart(b).offset < 0
    ensures Remaining(msgs, imei, b) == Received(msgs, State(b, imei, 0))
  {
    FindsFirstHeader(b, 0);
    assert Cut(b).None? && !HeaderAt(b, 0);
  }

  lemma HeaderFurtherOn(msgs: seq<Msg>, imei: Option<seq<byte>>, b: seq<byte>)
    requires FrameStart(b).offset > 0
    ensures FrameStart(b).offset <= |b|
    ensures var at := FrameStart(b).offset;
            Remaining(msgs, imei, b) == Remaining(msgs + [Skip(b[..at])], imei, b[at..])
  {
    var at := FrameStart(b).offset;
    FindsFirstHeader(b, 0);
    CutSound();
    var later := Deframe(Cut, b[at..]);
    assert ([Junk(b[..at])] + later.spans)[1..] == later.spans;
  }

  lemma HeaderAwaits(msgs: seq<Msg>, imei: Option<seq<byte>>, b: seq<byte>)
    requires HeaderAt(b, 0) && |b| < DataLen(b) + 21
    ensures var latched := LatchHeader(imei, b);
            Remaining(msgs, imei, b) == Received(msgs + Notice(latched, b), State(b, latched, DataLen(b)))
  {
    assert FindHeader(b, 0) == 0;
    assert Cut(b).None?;
  }

  lemma HeaderComplete(msgs: seq<Msg>, imei: Option<seq<byte>>, b: seq<byte>)
    requires HeaderAt(b, 0) && |b| >= DataLen(b) + 21
    ensures var latched, n := LatchHeader(imei, b), DataLen(b) + 21;
            Remaining(msgs, imei, b) == Remaining(msgs + Notice(latched, b) + [Body(b[..n])], latched, b[n..])
  {
    assert FindHeader(b, 0) == 0;
    var n := DataLen(b) + 21;
    assert Cut(b) == Some(Frame(b[..n]));
    FrameShape(b);
    CutSound();
    var later := Deframe(Cut, b[n..]);
    assert ([Frame(b[..n])] + later.spans)[1..] == later.spans;
  }

  /** The same once a header has been seen that declares `n` bytes. */
  ghost function AfterHeader(msgs: seq<Msg>, imei: Option<seq<byte>>, b: seq<byte>, n: nat): Received {
    if |b| < n + 21 then Received(msgs, State(b, imei, n))
    else Remaining(msgs + [Body(b[..n + 21])], imei, b[n + 21..])
  }

  ghost function Future(msgs: seq<Msg>, st: State): Received {
    if st.datalen == 0 then Remaining(msgs, st.imei, st.buffer)
    else AfterHeader(msgs, st.imei, st.buffer, st.datalen)
  }

  lemma RemainingIsReference(msgs: seq<Msg>, imei: Option<seq<byte>>, b: seq<byte>)
    ensures var r := Reference(imei, b); Remaining(msgs, imei, b) == Received(msgs + r.msgs, r.state)
  {
    CutSound();
    DeliverIsReference(msgs, imei, Deframe(Cut, b));
  }

  lemma AfterHeaderIsAwaited(msgs: seq<Msg>, imei: Option<seq<byte>>, b: seq<byte>, n: nat)
    ensures var r := Awaited(imei, b, n); AfterHeader(msgs, imei, b, n) == Received(msgs + r.msgs, r.state)
  {
    if |b| >= n + 21 {
      var body := [Body(b[..n + 21])];
      RemainingIsReference(msgs + body, imei, b[n + 21..]);
      Assoc(msgs, body, Reference(imei, b[n + 21..]).msgs);
    } else {
      assert msgs + [] == msgs;
    }
  }

  lemma FutureIsResume(st: State)
    ensures Future([], st) == Resume(st)
  {
    RemainingIsReference([], st.imei, st.buffer);
    AfterHeaderIsAwaited([], st.imei, st.buffer, st.datalen);
    assert forall m: seq<Msg> :: [] + m == m;
  }

  /** Seeing a header, whether or not its frame is complete yet. */
  lemma SeeHeader(msgs: seq<Msg>, imei: Option<seq<byte>>, b: seq<byte>)
    requires HeaderAt(b, 0)
    ensures var latched := if imei == None then Some(ImeiOf(b)) else imei;
            var noted := if latched != Some(ImeiOf(b)) then msgs + [Mismatch(ImeiOf(b), latched.value)] else msgs;
            Remaining(msgs, imei, b) == AfterHeader(noted, latched, b, DataLen(b))
  {
    assert msgs + [] == msgs;
    if |b| < DataLen(b) + 21 {
      HeaderAwaits(msgs, imei, b);
    } else {
      HeaderComplete(msgs, imei, b);
    }
  }

  class Stream {
    /** The descriptor of the connection it belongs to. */
    ghost const owner: int
    var buffer: seq<byte>
    var imei: Option<seq<byte>>
    var datalen: nat

    constructor (ghost fd: int)
      ensures owner == fd && View() == FRESH
    {
      owner := fd;
      buffer, imei, datalen := [], None, 0;
    }

    function View(): State
      reads this
    {
      State(buffer, imei, datalen)
    }

    /** The first half of a round: find a header, skip what precedes it, latch its imei and cache its length. */
    method SeeFrameStart(msgs0: seq<Msg>) returns (seen: bool, msgs: seq<Msg>)
      requires datalen == 0
      modifies this
      ensures !seen ==> Remaining(msgs0, old(imei), old(buffer)) == Received(msgs, View())
      ensures seen ==> Remaining(msgs0, old(imei), old(buffer)) == AfterHeader(msgs, imei, buffer, datalen)
      ensures |buffer| <= old(|buffer|)
    {
      msgs := msgs0;
      var start := FrameStart(buffer);
      FrameStartMeaning(buffer);
      if start.offset < 0 {
        NoHeader(msgs, imei, buffer);
        return false, msgs;
      }
      if start.offset > 0 {
        HeaderFurtherOn(msgs, imei, buffer);
        msgs := msgs + [Skipping(start.offset, Head(buffer[..start.offset], 64))];
        buffer := buffer[start.offset..];
      }
      SeeHeader(msgs, imei, buffer);
      if imei == None {
        imei := Some(start.imei);
      }
      if imei != Some(start.imei) {
        msgs := msgs + [Mismatch(start.imei, imei.value)];
      }
      datalen := start.datalen;
      seen := true;
    }

    /** The second half: with all its bytes there, hand out the frame, or say that it does not end as it should. */
    method TakeFrame(msgs0: seq<Msg>) returns (msgs: seq<Msg>)
      requires |buffer| >= datalen + 21
      modifies this
      ensures Future(msgs, View()) == AfterHeader(msgs0, old(imei), old(buffer), old(datalen))
      ensures |buffer| < old(|buffer|)
    {
      if buffer[datalen + 20] == SHUT {
        msgs := msgs0 + [Packet(buffer[..datalen + 21])];
      } else {
        msgs := msgs0 + [BadEnd(datalen + 20)];
      }
      buffer := buffer[datalen + 21..];
      datalen := 0;
    }

    method Recv(segment: seq<byte>) returns (msgs: seq<Msg>)
      modifies this
      ensures Received(msgs, View()) == Receive(old(View()), segment)
    {
      buffer := buffer + segment;
      if |buffer| > MAXBUFFER {
        buffer := [];
        return [Dropped];
      }
      msgs := [];
      ghost var whole := Future(msgs, View());
      FutureIsResume(View());
      while true
        invariant Future(msgs, View()) == whole
        decreases |buffer|
      {
        if datalen == 0 {
          var seen;
          seen, msgs := SeeFrameStart(msgs);
          if !seen {
            break;
          }
        }
        if |buffer| < datalen + 21 {
          break;
        }
        msgs := TakeFrame(msgs);
      }
    }

    method Close() returns (rest: seq<byte>)
      modifies this
      ensures rest == old(buffer) && View() == FRESH
    {
      rest := buffer;
      buffer := [];
      imei := None;
      datalen := 0;
    }
  }
}
