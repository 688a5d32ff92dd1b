/** The messages of the internal bus: fixed-width text fields, a peer address, and topics matched by prefix. */
module Bus {
  import opened Bytes

  // ----- text fields -----

  function Zeros(n: nat): (z: seq<byte>)
    ensures |z| == n && forall i :: 0 <= i < n ==> z[i] == 0
  {
    if n == 0 then [] else [0] + Zeros(n - 1)
  }

  /** The `16s` format: cut off or filled up with NUL bytes. */
  function Pad16(s: seq<byte>): (f: seq<byte>)
    ensures |f| == 16
  {
    if |s| >= 16 then s[..16] else s + Zeros(16 - |s|)
  }

  function StripRight(s: seq<byte>): seq<byte> {
    if s != [] && s[|s| - 1] == 0 then StripRight(s[..|s| - 1]) else s
  }

  function StripLeft(s: seq<byte>): seq<byte> {
    if s != [] && s[0] == 0 then StripLeft(s[1..]) else s
  }

  function Strip(s: seq<byte>): seq<byte> {
    StripLeft(StripRight(s))
  }

  predicate EndsInNul(s: seq<byte>) {
    s != [] && s[|s| - 1] == 0
  }

  predicate StartsWithNul(s: seq<byte>) {
    s != [] && s[0] == 0
  }

  lemma {:induction false} StripRightPadding(s: seq<byte>, n: nat)
    ensures StripRight(s + Zeros(n)) == StripRight(s)
    decreases n
  {
    if n == 0 {
      assert s + Zeros(0) == s;
    } else {
      var p := s + Zeros(n);
      assert Zeros(n)[..n - 1] == Zeros(n - 1) by {
        assert forall i :: 0 <= i < n - 1 ==> Zeros(n)[i] == Zeros(n - 1)[i];
      }
      assert p[..|p| - 1] == s + Zeros(n - 1);
      StripRightPadding(s, n - 1);
    }
  }

  lemma {:induction false} StripRightShortens(s: seq<byte>)
    ensures |StripRight(s)| <= |s| && !EndsInNul(StripRight(s))
    ensures if EndsInNul(s) then |StripRight(s)| < |s| else StripRight(s) == s
  {
    if EndsInNul(s) {
      StripRightShortens(s[..|s| - 1]);
    }
  }

  lemma {:induction false} StripLeftShortens(s: seq<byte>)
    ensures |StripLeft(s)| <= |s|
    ensures if StartsWithNul(s) then |StripLeft(s)| < |s| else StripLeft(s) == s
  {
    if StartsWithNul(s) {
      StripLeftShortens(s[1..]);
    }
  }

  /** A field comes back without its padding exactly when it fits and does not end in NUL itself. */
  lemma RightFieldExact(s: seq<byte>)
    ensures StripRight(Pad16(s)) == s <==> |s| <= 16 && !EndsInNul(s)
  {
    StripRightShortens(Pad16(s));
    StripRightShortens(s);
    if |s| < 16 {
      StripRightPadding(s, 16 - |s|);
    } else if |s| == 16 {
      assert s[..16] == s;
    }
  }

  lemma FieldExact(s: seq<byte>)
    ensures Strip(Pad16(s)) == s <==> |s| <= 16 && !EndsInNul(s) && !StartsWithNul(s)
  {
    RightFieldExact(s);
    StripRightShortens(Pad16(s));
    StripRightShortens(s);
    StripLeftShortens(StripRight(Pad16(s)));
    StripLeftShortens(s);
    if |s| < 16 {
      StripRightPadding(s, 16 - |s|);
    } else if |s| == 16 {
      assert s[..16] == s;
    }
  }

  /** Names that fit are told apart by their fields. */
  lemma FieldsTellApart(a: seq<byte>, b: seq<byte>)
    requires |a| <= 16 && !EndsInNul(a) && |b| <= 16 && !EndsInNul(b)
    ensures Pad16(a) == Pad16(b) <==> a == b
  {
    RightFieldExact(a);
    RightFieldExact(b);
  }

  /** An optional name: absence travels as a field of sixteen marks. */
  function PackName(name: Option<seq<byte>>, mark: byte): (f: seq<byte>)
    ensures |f| == 16
  {
    match name
    case None => seq(16, _ => mark)
    case Some(s) => Pad16(s)
  }

  function UnpackName(f: seq<byte>, mark: byte): Option<seq<byte>>
    requires |f| == 16
  {
    if f == seq(16, _ => mark) then None else Some(Strip(f))
  }

  predicate NameFits(name: Option<seq<byte>>, mark: byte) {
    name.None? ||
    (|name.value| <= 16 && !EndsInNul(name.value) && !StartsWithNul(name.value) && name.value != seq(16, _ => mark))
  }

  lemma NameExact(name: Option<seq<byte>>, mark: byte)
    requires mark != 0
    ensures UnpackName(PackName(name, mark), mark) == name <==> NameFits(name, mark)
  {
    var absent := seq(16, _ => mark);
    assert absent[15] == mark;
    if name.Some? {
      var s := name.value;
      FieldExact(s);
      assert |s| < 16 ==> Pad16(s)[15] == 0;
      assert |s| == 16 ==> Pad16(s) == s;
    }
  }

  // ----- fields byte for byte -----

  /** A field holds the first sixteen bytes of the text, and zeros where there are no more. */
  lemma PadSpelledOut(s: seq<byte>, k: nat)
    requires k < 16
    ensures Pad16(s)[k] == if k < |s| then s[k] else 0
  {
  }

  /** What is read from a field: all zero bytes at its end go, and for names those at its start, and nothing else. */
  lemma {:induction false} StripRightExact(s: seq<byte>) returns (n: nat)
    ensures s == StripRight(s) + Zeros(n) && !EndsInNul(StripRight(s))
    decreases |s|
  {
    n := 0;
    if EndsInNul(s) {
      var m := StripRightExact(s[..|s| - 1]);
      ZerosSnoc(m);
      assert s == s[..|s| - 1] + [0];
      Assoc(StripRight(s), Zeros(m), [0]);
      n := m + 1;
    } else {
      assert StripRight(s) + Zeros(0) == s;
    }
  }

  lemma {:induction false} ZerosSnoc(n: nat)
    ensures Zeros(n + 1) == Zeros(n) + [0]
  {
    if n > 0 {
      ZerosSnoc(n - 1);
    }
  }

  lemma {:induction false} StripLeftExact(s: seq<byte>) returns (n: nat)
    ensures s == Zeros(n) + StripLeft(s) && !StartsWithNul(StripLeft(s))
    ensures !EndsInNul(s) ==> !EndsInNul(StripLeft(s))
    decreases |s|
  {
    n := 0;
    if StartsWithNul(s) {
      var m := StripLeftExact(s[1..]);
      assert s == [0] + s[1..];
      Assoc([0], Zeros(m), StripLeft(s));
      n := m + 1;
    } else {
      assert Zeros(0) + StripLeft(s) == s;
    }
  }

  /** An optional name is none if and only if its field is all marks; otherwise it loses its outer zero bytes. */
  lemma NameRead(f: seq<byte>, mark: byte) returns (left: nat, right: nat)
    requires |f| == 16
    ensures UnpackName(f, mark) == None <==> forall k :: 0 <= k < 16 ==> f[k] == mark
    ensures UnpackName(f, mark).Some? ==>
              var name := UnpackName(f, mark).value;
              f == Zeros(left) + name + Zeros(right) && !StartsWithNul(name) && !EndsInNul(name)
  {
    var marks := seq(16, _ => mark);
    assert f == marks <==> forall k :: 0 <= k < 16 ==> f[k] == mark;
    right := StripRightExact(f);
    left := StripLeftExact(StripRight(f));
  }

  // ----- peer addresses -----

  datatype Addr = V4(b4: seq<byte>) | V6(b6: seq<byte>)

  /** The peer of a message: none given, the empty address that stands for none after decoding, or a real one. */
  datatype Peer = NoPeer | EmptyPeer | Peer(addr: Addr, port: int)

  const ANY6: seq<byte> := [0, 0, 0, 0, 0, 0, 0, 0, 0, 0, 0, 0, 0, 0, 0, 0]
  const MAPPED: seq<byte> := [0, 0, 0, 0, 0, 0, 0, 0, 0, 0, 0xFF, 0xFF]

  predicate ValidAddr(a: Addr) {
    match a
    case V4(b) => |b| == 4
    case V6(b) => |b| == 16
  }

  function PackPort(port: int): seq<byte>
    requires 0 <= port < 0x1_0000
  {
    [(port / 0x100) as byte, (port % 0x100) as byte]
  }

  /** Eighteen bytes; an IPv4 address travels in its IPv4-mapped form (section 2.5.5.2 of RFC 4291). */
  function PackPeer(p: Peer): (b: Option<seq<byte>>)
    ensures b.Some? ==> |b.value| == 18
  {
    match p
    case NoPeer => Some(ANY6 + PackPort(0))
    case EmptyPeer => None
    case Peer(addr, port) =>
      if !ValidAddr(addr) || !(0 <= port < 0x1_0000) then None
      else if addr.V4? then Some(MAPPED + addr.b4 + PackPort(port))
      else Some(addr.b6 + PackPort(port))
  }

  function UnpackPeer(b: seq<byte>): Peer
    requires |b| == 18
  {
    var a6, port := b[..16], b[16] as int * 0x100 + b[17] as int;
    if a6[..12] == MAPPED then Peer(V4(a6[12..]), port)
    else if a6 == ANY6 then EmptyPeer
    else Peer(V6(a6), port)
  }

  /** The form in which an address arrives. */
  function Arrives(p: Peer): Peer {
    if p.Peer? && p.addr.V6? && |p.addr.b6| == 16 then
      if p.addr.b6[..12] == MAPPED then Peer(V4(p.addr.b6[12..]), p.port)
      else if p.addr.b6 == ANY6 then EmptyPeer
      else p
    else if p.NoPeer? then EmptyPeer
    else p
  }

  lemma PeerArrives(p: Peer)
    requires PackPeer(p).Some?
    ensures UnpackPeer(PackPeer(p).value) == Arrives(p)
  {
    var b := PackPeer(p).value;
    match p {
      case NoPeer =>
        assert b[..16] == ANY6;
        assert ANY6[10] != MAPPED[10];
        assert ANY6[..12][10] == ANY6[10];
      case Peer(addr, port) =>
        if addr.V4? {
          assert b[..16][..12] == MAPPED && b[..16][12..] == addr.b4;
        } else {
          assert b[..16] == addr.b6;
        }
        assert b[16] as int * 0x100 + b[17] as int == port;
    }
  }

  // ----- messages -----

  const ZERO_DIGIT: byte := 0x30
  const SPACE: byte := 0x20

  /** `when` is the eight-byte image of a floating-point number. */
  datatype Bcast = Bcast(incoming: bool, proto: seq<byte>, imei: Option<seq<byte>>, when: Option<seq<byte>>,
                         pmod: Option<seq<byte>>, peer: Peer, packet: seq<byte>)

  function PackWhen(when: Option<seq<byte>>): seq<byte> {
    if when.None? then Zeros(8) else when.value
  }

  predicate ValidWhen(when: Option<seq<byte>>) {
    when.Some? ==> |when.value| == 8
  }

  function Flag(incoming: bool): byte {
    if incoming then 1 else 0
  }

  function PackBcast(m: Bcast): Option<seq<byte>> {
    var peer := PackPeer(m.peer);
    if peer.None? || !ValidWhen(m.when) then None
    else Some([Flag(m.incoming)] + Pad16(m.proto) + PackName(m.imei, ZERO_DIGIT) + PackWhen(m.when)
              + PackName(m.pmod, SPACE) + peer.value + m.packet)
  }

  function DecodeBcast(b: seq<byte>): Option<Bcast> {
    if |b| < 75 then None
    else Some(Bcast(b[0] != 0, StripRight(b[1..17]), UnpackName(b[17..33], ZERO_DIGIT), Some(b[33..41]),
                    UnpackName(b[41..57], SPACE), UnpackPeer(b[57..75]), b[75..]))
  }

  lemma BcastFields(m: Bcast)
    requires PackBcast(m).Some?
    ensures var b := PackBcast(m).value;
            && |b| == 75 + |m.packet|
            && b[0] == Flag(m.incoming) && b[1..17] == Pad16(m.proto) && b[17..33] == PackName(m.imei, ZERO_DIGIT)
            && b[33..41] == PackWhen(m.when) && b[41..57] == PackName(m.pmod, SPACE)
            && b[57..75] == PackPeer(m.peer).value && b[75..] == m.packet
  {
  }

  /**
    A packed broadcast byte for byte: direction, protocol, imei or sixteen zero digits, time, protocol module or sixteen
    spaces, and the packet behind eighteen bytes for the peer.
  */
  lemma BcastSpelledOut(m: Bcast)
    requires PackBcast(m).Some?
    ensures var b := PackBcast(m).value;
            && |b| == 75 + |m.packet|
            && b[0] == (if m.incoming then 1 else 0)
            && (forall k :: 0 <= k < 16 ==> b[1 + k] == if k < |m.proto| then m.proto[k] else 0)
            && (forall k :: 0 <= k < 16 ==>
                  b[17 + k] == if m.imei.None? then 0x30 else if k < |m.imei.value| then m.imei.value[k] else 0)
            && (forall k :: 0 <= k < 16 ==>
                  b[41 + k] == if m.pmod.None? then 0x20 else if k < |m.pmod.value| then m.pmod.value[k] else 0)
            && (forall k :: 0 <= k < 8 ==> b[33 + k] == if m.when.None? then 0 else m.when.value[k])
            && b[57..75] == PackPeer(m.peer).value && b[75..] == m.packet
  {
    var b := PackBcast(m).value;
    BcastFields(m);
    SpelledField(b, 1, 17, Pad16(m.proto));
    SpelledField(b, 17, 33, PackName(m.imei, ZERO_DIGIT));
    SpelledField(b, 33, 41, PackWhen(m.when));
    SpelledField(b, 41, 57, PackName(m.pmod, SPACE));
  }

  lemma SpelledField(b: seq<byte>, lo: nat, hi: nat, f: seq<byte>)
    requires lo <= hi <= |b| && b[lo..hi] == f
    ensures forall k :: 0 <= k < hi - lo ==> b[lo + k] == f[k]
  {
    forall k | 0 <= k < hi - lo ensures b[lo + k] == f[k] {
      assert b[lo..hi][k] == b[lo + k];
    }
  }

  /** The peer: sixteen bytes of address, IPv4 behind ten zeros and two 0xFF, then the port, high byte first. */
  lemma PeerSpelledOut(p: Peer)
    requires PackPeer(p).Some?
    ensures var b := PackPeer(p).value;
            match p
            case NoPeer => forall k :: 0 <= k < 18 ==> b[k] == 0
            case EmptyPeer => false
            case Peer(addr, port) =>
              && b[16] as int == port / 256 && b[17] as int == port % 256
              && (addr.V6? ==> b[..16] == addr.b6)
              && (addr.V4? ==>
                    b[..12] == [0, 0, 0, 0, 0, 0, 0, 0, 0, 0, 0xFF, 0xFF] && b[12..16] == addr.b4)
  {
  }

  /** Reading the peer: with that prefix it is an IPv4 address, all zeros are the empty one, all others IPv6. */
  lemma PeerRead(b: seq<byte>)
    requires |b| == 18
    ensures var p := UnpackPeer(b);
            && (p.Peer? ==> p.port == 256 * b[16] as int + b[17] as int)
            && (p.Peer? && p.addr.V4? <==> b[..12] == [0, 0, 0, 0, 0, 0, 0, 0, 0, 0, 0xFF, 0xFF])
            && (p.Peer? && p.addr.V4? ==> p.addr.b4 == b[12..16])
            && (p.EmptyPeer? <==> forall k :: 0 <= k < 16 ==> b[k] == 0)
            && (p.Peer? && p.addr.V6? ==> p.addr.b6 == b[..16])
            && !p.NoPeer?
  {
    assert b[..16][..12] == b[..12] && b[..16][12..] == b[12..16];
    if forall k :: 0 <= k < 16 ==> b[k] == 0 {
      assert b[..16] == ANY6;
      assert b[..12][10] == 0;
    } else if b[..16] == ANY6 {
      assert forall k :: 0 <= k < 16 ==> b[k] == b[..16][k];
    }
  }

  /** What a message must look like to be understood as it was meant. */
  predicate BcastFits(m: Bcast) {
    && |m.proto| <= 16 && !EndsInNul(m.proto)
    && NameFits(m.imei, ZERO_DIGIT) && NameFits(m.pmod, SPACE)
    && m.when.Some?
    && m.peer.Peer? && (m.peer.addr.V6? ==> m.peer.addr.b6 != ANY6 && !(MAPPED <= m.peer.addr.b6))
  }

  lemma BcastRoundTrip(m: Bcast)
    requires PackBcast(m).Some?
    ensures DecodeBcast(PackBcast(m).value) == Some(m) <==> BcastFits(m)
  {
    BcastFields(m);
    RightFieldExact(m.proto);
    NameExact(m.imei, ZERO_DIGIT);
    NameExact(m.pmod, SPACE);
    PeerArrives(m.peer);
    PeerFits(m.peer);
  }

  lemma PeerFits(p: Peer)
    requires PackPeer(p).Some?
    ensures Arrives(p) == p <==>
            p.Peer? && (p.addr.V6? ==> p.addr.b6 != ANY6 && !(MAPPED <= p.addr.b6))
  {
    if p.Peer? && p.addr.V6? {
      assert MAPPED <= p.addr.b6 <==> p.addr.b6[..12] == MAPPED;
    }
  }

  datatype Resp = Resp(imei: Option<seq<byte>>, when: Option<seq<byte>>, packet: seq<byte>)

  /** Without an imei there is nothing to send: the source fails on the text it puts in its place. */
  function PackResp(m: Resp): Option<seq<byte>> {
    if m.imei.None? || !ValidWhen(m.when) then None
    else Some(PackName(m.imei, ZERO_DIGIT) + PackWhen(m.when) + m.packet)
  }

  function DecodeResp(b: seq<byte>): Option<Resp> {
    if |b| < 24 then None else Some(Resp(UnpackName(b[..16], ZERO_DIGIT), Some(b[16..24]), b[24..]))
  }

  lemma RespRoundTrip(m: Resp)
    requires PackResp(m).Some?
    ensures DecodeResp(PackResp(m).value) == Some(m) <==> NameFits(m.imei, ZERO_DIGIT) && m.when.Some?
  {
    var b := PackResp(m).value;
    assert b[..16] == PackName(m.imei, ZERO_DIGIT) && b[16..24] == PackWhen(m.when) && b[24..] == m.packet;
    NameExact(m.imei, ZERO_DIGIT);
  }

  /** A packed response: the imei, the time, the packet. */
  lemma RespSpelledOut(m: Resp)
    requires PackResp(m).Some?
    ensures var b := PackResp(m).value;
            && |b| == 24 + |m.packet|
            && (forall k :: 0 <= k < 16 ==> b[k] == if k < |m.imei.value| then m.imei.value[k] else 0)
            && (forall k :: 0 <= k < 8 ==> b[16 + k] == if m.when.None? then 0 else m.when.value[k])
            && b[24..] == m.packet
  {
  }

  datatype Rept = Rept(imei: Option<seq<byte>>, payload: seq<byte>)

  function PackRept(m: Rept): seq<byte> {
    PackName(m.imei, ZERO_DIGIT) + m.payload
  }

  function DecodeRept(b: seq<byte>): Rept {
    if |b| < 16 then Rept(Some(Strip(b)), []) else Rept(UnpackName(b[..16], ZERO_DIGIT), b[16..])
  }

  lemma ReptRoundTrip(m: Rept)
    ensures DecodeRept(PackRept(m)) == m <==> NameFits(m.imei, ZERO_DIGIT)
  {
    var b := PackRept(m);
    assert b[..16] == PackName(m.imei, ZERO_DIGIT) && b[16..] == m.payload;
    NameExact(m.imei, ZERO_DIGIT);
  }

  /** A packed report: the imei or sixteen zero digits, then the payload. */
  lemma ReptSpelledOut(m: Rept)
    ensures var b := PackRept(m);
            && |b| == 16 + |m.payload|
            && (forall k :: 0 <= k < 16 ==>
                  b[k] == if m.imei.None? then 0x30 else if k < |m.imei.value| then m.imei.value[k] else 0)
            && b[16..] == m.payload
  {
  }

  // ----- topics -----

  function Topic(proto: seq<byte>, incoming: bool, imei: Option<seq<byte>>): seq<byte> {
    [Flag(incoming)] + Pad16(proto) + (if imei.None? then [] else Pad16(imei.value))
  }

  function RTopic(imei: seq<byte>): seq<byte> {
    Pad16(imei)
  }

  /** A topic: direction, protocol and, if it is for one terminal only, the imei. */
  lemma TopicSpelledOut(proto: seq<byte>, incoming: bool, imei: Option<seq<byte>>)
    ensures var t := Topic(proto, incoming, imei);
            && |t| == (if imei.None? then 17 else 33)
            && t[0] == (if incoming then 1 else 0)
            && (forall k :: 0 <= k < 16 ==> t[1 + k] == if k < |proto| then proto[k] else 0)
            && (imei.Some? ==>
                  forall k :: 0 <= k < 16 ==> t[17 + k] == if k < |imei.value| then imei.value[k] else 0)
  {
  }

  /** A subscription matches by prefix exactly when direction, protocol and, if given, imei agree as fields. */
  lemma TopicMatches(m: Bcast, proto: seq<byte>, incoming: bool, imei: Option<seq<byte>>)
    requires PackBcast(m).Some?
    ensures Topic(proto, incoming, imei) <= PackBcast(m).value <==>
            && incoming == m.incoming && Pad16(proto) == Pad16(m.proto)
            && (imei.Some? ==> Pad16(imei.value) == PackName(m.imei, ZERO_DIGIT))
  {
    var b, t := PackBcast(m).value, Topic(proto, incoming, imei);
    BcastFields(m);
    assert b[..17] == [b[0]] + b[1..17] && b[..33] == b[..17] + b[17..33];
    assert t[0] == Flag(incoming) && t[1..17] == Pad16(proto);
    assert imei.Some? ==> t[17..] == Pad16(imei.value);
    assert t <= b <==> b[..|t|] == t;
    assert t <= b ==> b[0] == t[0] && b[1..17] == t[1..17] && (imei.Some? ==> b[17..33] == t[17..33]);
  }

  /** For names that fit, a subscriber to one terminal gets its messages and no other's. */
  lemma TopicRoutes(m: Bcast, proto: seq<byte>, incoming: bool, imei: seq<byte>)
    requires PackBcast(m).Some?
    requires |m.proto| <= 16 && !EndsInNul(m.proto) && NameFits(m.imei, ZERO_DIGIT)
    requires |proto| <= 16 && !EndsInNul(proto) && NameFits(Some(imei), ZERO_DIGIT)
    ensures Topic(proto, incoming, Some(imei)) <= PackBcast(m).value <==>
            incoming == m.incoming && proto == m.proto && m.imei == Some(imei)
  {
    TopicMatches(m, proto, incoming, Some(imei));
    FieldsTellApart(proto, m.proto);
    NameExact(m.imei, ZERO_DIGIT);
    NameExact(Some(imei), ZERO_DIGIT);
  }

  lemma RTopicMatches(m: Rept, imei: seq<byte>)
    ensures RTopic(imei) <= PackRept(m) <==> Pad16(imei) == PackName(m.imei, ZERO_DIGIT)
  {
    var b := PackRept(m);
    assert b[..16] == PackName(m.imei, ZERO_DIGIT);
  }

  lemma RTopicRoutes(m: Rept, imei: seq<byte>)
    requires NameFits(m.imei, ZERO_DIGIT) && NameFits(Some(imei), ZERO_DIGIT)
    ensures RTopic(imei) <= PackRept(m) <==> m.imei == Some(imei)
  {
    RTopicMatches(m, imei);
    NameExact(m.imei, ZERO_DIGIT);
    NameExact(Some(imei), ZERO_DIGIT);
  }
}
