/** The two protocol modules as the collector sees them. */
module Protocols {
  import opened Bytes
  import opened Deframing
  import opened HexText
  import Zx303
  import Zx303Framing
  import Beesure
  import BeesureFraming
  import BeesureTransparency

  datatype Proto = Zx | Bs

  const LOGIN: byte := 0x01
  const HIBERNATION: byte := 0x14

  function ProbeBuffer(p: Proto, segment: seq<byte>): bool {
    match p
    case Zx =>
      var framestart := FindPair(segment, SMALL_X, SMALL_X, 0);
      framestart >= 0 && |segment| - framestart >= 6
    case Bs => Beesure.FindHeader(segment, 0) >= 0
  }

  /** The first configured protocol that recognises the segment. */
  function ProbePmod(pmods: seq<Proto>, segment: seq<byte>): Option<Proto> {
    if pmods == [] then None
    else if ProbeBuffer(pmods[0], segment) then Some(pmods[0])
    else ProbePmod(pmods[1..], segment)
  }

  /** What the collector relies on: every packet has a protocol byte, as far as the protocol has one. */
  predicate PacketOk(p: Proto, packet: seq<byte>) {
    p == Zx ==> |packet| >= 2
  }

  /** The imeis of the two protocols are told apart by their length. */
  predicate ImeiOk(p: Proto, imei: seq<byte>) {
    match p
    case Zx => |imei| == 16
    case Bs => BeesureTransparency.IsImei(imei)
  }

  /** A zx303 login that is too short to hold eight bytes of imei and a version is not understood. */
  function ImeiFromPacket(p: Proto, packet: seq<byte>): (imei: Option<seq<byte>>)
    requires PacketOk(p, packet)
    ensures imei.Some? ==> ImeiOk(p, imei.value)
  {
    match p
    case Zx => if packet[1] == LOGIN && |packet| >= 11 then Some(ToHex(packet[2..10])) else None
    case Bs =>
      BeesureTransparency.PacketImei(packet);
      BeesureFraming.ImeiFromPacket(packet)
  }

  /** A login as a terminal builds it from its imei: eight bytes read from hex text, and a version. */
  function LoginPacket(imei: seq<byte>, ver: byte): Option<seq<byte>> {
    var id := FromHex(imei);
    if id.None? then None else Zx303Framing.Packed(LOGIN, (id.value + ZEROS8)[..8] + [ver])
  }

  const ZEROS8: seq<byte> := [0, 0, 0, 0, 0, 0, 0, 0]

  /** The imei is recovered exactly when it is sixteen lower-case hexadecimal digits. */
  lemma LoginIdentifies(imei: seq<byte>, ver: byte)
    ensures LoginPacket(imei, ver).Some? <==> FromHex(imei).Some?
    ensures LoginPacket(imei, ver).Some? && ImeiFromPacket(Zx, LoginPacket(imei, ver).value) == Some(imei) <==>
            LowerText(imei, 8)
  {
    if LowerText(imei, 8) {
      var id := LowerIsToHex(imei, 8);
      ToHexReads(id);
      assert (id + ZEROS8)[..8] == id;
    }
    if FromHex(imei).Some? {
      var kept := (FromHex(imei).value + ZEROS8)[..8];
      assert LoginPacket(imei, ver).value[2..10] == kept;
      ToHexIsLower(kept);
    }
  }

  function IsGoodbye(p: Proto, packet: seq<byte>): bool
    requires PacketOk(p, packet)
  {
    p == Zx && packet[1] == HIBERNATION
  }

  function Enframe(p: Proto, buffer: seq<byte>, imei: Option<seq<byte>>): Option<seq<byte>> {
    match p
    case Zx => Some(Zx303Framing.Enframe(buffer))
    case Bs => BeesureTransparency.Enframe(buffer, imei)
  }

  /** The state of a connection's deframer. */
  datatype Stream = ZxStream(buffer: seq<byte>) | BsStream(st: Beesure.State)

  function ProtoOf(s: Stream): Proto {
    if s.ZxStream? then Zx else Bs
  }

  function NewStream(p: Proto): Stream {
    match p
    case Zx => ZxStream([])
    case Bs => BsStream(Beesure.FRESH)
  }

  function Collected(s: Stream): seq<byte> {
    match s
    case ZxStream(buffer) => buffer
    case BsStream(st) => st.buffer
  }

  function Limit(p: Proto): nat {
    match p
    case Zx => Zx303.MAXBUFFER
    case Bs => Beesure.MAXBUFFER
  }

  datatype Got = Got(packets: seq<seq<byte>>, stream: Stream)

  /** One arrival, of which only the packets matter here. */
  function StreamRecv(s: Stream, segment: seq<byte>): Got {
    match s
    case ZxStream(buffer) =>
      var r := Zx303.Receive(buffer, segment);
      Got(Zx303Framing.Packets(r.msgs), ZxStream(r.buffer))
    case BsStream(st) =>
      var r := Beesure.Receive(st, segment);
      Got(BeesureFraming.Packets(r.msgs), BsStream(r.state))
  }

  function Overflows(s: Stream, segment: seq<byte>): bool {
    |Collected(s) + segment| > Limit(ProtoOf(s))
  }

  /** The packets of a whole history of bytes, by the one-pass reference of its protocol. */
  function AllPackets(p: Proto, history: seq<byte>): seq<seq<byte>> {
    match p
    case Zx =>
      Zx303.CutSound();
      Zx303Framing.Packets(Zx303.Reports(Deframe(Zx303.Cut, history).spans))
    case Bs => BeesureFraming.Packets(Beesure.Reference(None, history).msgs)
  }

  function StreamAfter(p: Proto, history: seq<byte>): Stream {
    match p
    case Zx =>
      Zx303.CutSound();
      ZxStream(Deframe(Zx303.Cut, history).rest)
    case Bs => BsStream(Beesure.Reference(None, history).state)
  }

  lemma NothingYet(p: Proto)
    ensures AllPackets(p, []) == [] && StreamAfter(p, []) == NewStream(p)
  {
    match p
    case Zx =>
      Zx303.CutSound();
      assert Zx303.Cut([]).None?;
    case Bs => BeesureFraming.ReferenceOfNothing(None);
  }

  /** An arrival that does not overflow extends the reference by the packets it yields. */
  lemma StreamExtends(p: Proto, history: seq<byte>, segment: seq<byte>)
    requires !Overflows(StreamAfter(p, history), segment)
    ensures var got := StreamRecv(StreamAfter(p, history), segment);
            && got.stream == StreamAfter(p, history + segment)
            && AllPackets(p, history + segment) == AllPackets(p, history) + got.packets
  {
    match p
    case Zx => ZxExtends(history, segment);
    case Bs => BsExtends(history, segment);
  }

  lemma ZxExtends(history: seq<byte>, segment: seq<byte>)
    requires !Overflows(StreamAfter(Zx, history), segment)
    ensures var got := StreamRecv(StreamAfter(Zx, history), segment);
            && got.stream == StreamAfter(Zx, history + segment)
            && AllPackets(Zx, history + segment) == AllPackets(Zx, history) + got.packets
  {
    Zx303.CutSound();
    Zx303.CutStable();
    var first := Deframe(Zx303.Cut, history);
    var second := Deframe(Zx303.Cut, first.rest + segment);
    DeframeAppend(Zx303.Cut, history, segment);
    Zx303.ReportsAppend(first.spans, second.spans);
    Zx303Framing.PacketsAppend(Zx303.Reports(first.spans), Zx303.Reports(second.spans));
  }

  lemma BsExtends(history: seq<byte>, segment: seq<byte>)
    requires !Overflows(StreamAfter(Bs, history), segment)
    ensures var got := StreamRecv(StreamAfter(Bs, history), segment);
            && got.stream == StreamAfter(Bs, history + segment)
            && AllPackets(Bs, history + segment) == AllPackets(Bs, history) + got.packets
  {
    BeesureFraming.PacketsExtend(history, segment);
  }

  /** Whatever state a deframer is in, all zx303 packets it yields have a protocol byte. */
  lemma PacketsOk(s: Stream, segment: seq<byte>)
    ensures forall packet :: packet in StreamRecv(s, segment).packets ==> PacketOk(ProtoOf(s), packet)
  {
    if s.ZxStream? && !Overflows(s, segment) {
      Zx303Framing.MessagesWellFormed(s.buffer + segment);
      LongEnough(Zx303.Receive(s.buffer, segment).msgs);
    } else if s.ZxStream? {
      LongEnough([Zx303.Dropped]);
    }
  }

  lemma {:induction false} LongEnough(msgs: seq<Zx303.Msg>)
    requires forall m :: m in msgs && m.Packet? ==> |m.data| >= 2
    ensures forall packet :: packet in Zx303Framing.Packets(msgs) ==> |packet| >= 2
  {
    if msgs != [] {
      LongEnough(msgs[..|msgs| - 1]);
    }
  }
}
