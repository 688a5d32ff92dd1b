/** Building beesure frames, and why any stream of them comes back frame for frame whatever the payloads hold. */
module BeesureTransparency {
  import opened Bytes
  import opened Deframing
  import opened HexText
  import opened Beesure
  import opened BeesureFraming

  predicate AllHex(s: seq<byte>) {
    forall c :: c in s ==> IsHex(c)
  }

  /** Upper-case hexadecimal without leading zeros. */
  function HexOf(n: nat): (s: seq<byte>)
    ensures AllHex(s)
  {
    if n < 16 then [UpperDigit(n)] else HexOf(n / 16) + [UpperDigit(n % 16)]
  }

  function Zeros(n: nat): (s: seq<byte>)
    ensures |s| == n && AllHex(s)
  {
    if n == 0 then [] else [0x30] + Zeros(n - 1)
  }

  /** Python's `f"{n:04X}"`: at least four digits. */
  function Hex04(n: nat): (s: seq<byte>)
    ensures AllHex(s)
  {
    var s := HexOf(n);
    if |s| < 4 then Zeros(4 - |s|) + s else s
  }

  lemma {:induction false} HexOfReads(n: nat)
    ensures HexNumber(HexOf(n)) == n
  {
    if n >= 16 {
      HexOfReads(n / 16);
      assert HexOf(n)[..|HexOf(n)| - 1] == HexOf(n / 16);
    }
  }

  lemma {:induction false} LeadingZeros(k: nat, s: seq<byte>)
    requires AllHex(s)
    ensures AllHex(Zeros(k) + s) && HexNumber(Zeros(k) + s) == HexNumber(s)
    decreases |s|, k
  {
    if s != [] {
      var init := s[..|s| - 1];
      LeadingZeros(k, init);
      assert (Zeros(k) + s)[..k + |s| - 1] == Zeros(k) + init;
    } else if k > 0 {
      ZerosSnoc(k - 1);
      LeadingZeros(k - 1, []);
      assert Zeros(k) + [] == Zeros(k) && Zeros(k - 1) + [] == Zeros(k - 1);
      assert Zeros(k)[..k - 1] == Zeros(k - 1);
    }
  }

  lemma {:induction false} ZerosSnoc(k: nat)
    ensures Zeros(k + 1) == Zeros(k) + [0x30]
  {
    if k > 0 {
      ZerosSnoc(k - 1);
    }
  }

  lemma {:induction false} HexOfLength(n: nat, digits: nat, limit: nat)
    requires digits > 0 && limit == Power16(digits)
    ensures |HexOf(n)| <= digits <==> n < limit
  {
    if digits == 1 {
      assert Power16(1) == 16 * Power16(0);
    } else if n >= 16 {
      HexOfLength(n / 16, digits - 1, Power16(digits - 1));
    } else {
      PowerPositive(digits - 1);
    }
  }

  function Power16(k: nat): nat {
    if k == 0 then 1 else 16 * Power16(k - 1)
  }

  lemma {:induction false} PowerPositive(k: nat)
    ensures Power16(k) >= 1
  {
    if k > 0 {
      PowerPositive(k - 1);
    }
  }

  /** Every number is read back from its text, and the text has four digits exactly below 65536. */
  lemma HexRoundTrip(n: nat)
    ensures HexNumber(Hex04(n)) == n
    ensures |Hex04(n)| == 4 <==> n < 0x1_0000
  {
    HexOfReads(n);
    LeadingZeros(if |HexOf(n)| < 4 then 4 - |HexOf(n)| else 0, HexOf(n));
    assert Power16(4) == 0x1_0000 by {
      assert Power16(2) == 256;
    }
    HexOfLength(n, 4, 0x1_0000);
  }

  predicate IsImei(imei: seq<byte>) {
    |imei| == 10 && forall k :: 0 <= k < 10 ==> IsDigit(imei[k])
  }

  lemma PacketImei(p: seq<byte>)
    ensures ImeiFromPacket(p).Some? ==> IsImei(ImeiFromPacket(p).value)
  {
    FrameStartMeaning(p);
    if ImeiFromPacket(p).Some? {
      HeaderBytes(p);
      assert p[0..] == p;
    }
  }

  predicate IsVendor(vendor: seq<byte>) {
    |vendor| == 2 && IsWord(vendor[0]) && IsWord(vendor[1])
  }

  function Header(vendor: seq<byte>, imei: seq<byte>, length: nat): seq<byte> {
    [OPEN] + vendor + [STAR] + imei + [STAR] + Hex04(length) + [STAR]
  }

  function BuildFrame(vendor: seq<byte>, imei: seq<byte>, payload: seq<byte>): seq<byte> {
    Header(vendor, imei, |payload|) + payload + [SHUT]
  }

  const LT: seq<byte> := [0x4C, 0x54]
  const ZERO_IMEI: seq<byte> := [0x30, 0x30, 0x30, 0x30, 0x30, 0x30, 0x30, 0x30, 0x30, 0x30]

  /** A response as it is built, before the terminal's imei is filled in. The payload text is ASCII. */
  function Packed(payload: seq<byte>): seq<byte> {
    BuildFrame(LT, ZERO_IMEI, payload)
  }

  /** Fill in the imei; the two assertions of the source are the two ways to fail. */
  function Enframe(buffer: seq<byte>, imei: Option<seq<byte>>): Option<seq<byte>> {
    var start := FrameStart(buffer);
    if imei.None? || |imei.value| != 10 || start.offset != 0 then None
    else
      FindsFirstHeader(buffer, 0);
      Some(Header(start.vendor, imei.value, start.datalen) + buffer[20..])
  }

  /** The bytes of a built frame, position by position, with anything behind it. */
  lemma BuiltHeader(vendor: seq<byte>, imei: seq<byte>, length: nat, c: seq<byte>)
    requires IsVendor(vendor) && IsImei(imei) && length < 0x1_0000
    ensures var b := Header(vendor, imei, length) + c;
            && |Header(vendor, imei, length)| == 20
            && HeaderAt(b, 0) && b[1..3] == vendor && ImeiOf(b) == imei && DataLen(b) == length
            && b[20..] == c
  {
    HexRoundTrip(length);
    var hex := Hex04(length);
    var h := Header(vendor, imei, length);
    var b := h + c;
    assert h[4..14] == imei && h[15..19] == hex;
    assert b[1..3] == vendor && b[4..14] == imei && b[15..19] == hex;
    forall k | 0 <= k < 20 ensures InClass(b[0 + k], ClassAt(k)) {
      if 4 <= k < 14 {
        assert b[k] == b[4..14][k - 4];
      } else if 15 <= k < 19 {
        assert b[k] == b[15..19][k - 15] && hex[k - 15] in hex;
      }
    }
  }

  /** A built frame is cut off whole, whatever its payload holds and whatever follows it. */
  lemma BuiltFrameCut(vendor: seq<byte>, imei: seq<byte>, payload: seq<byte>)
    requires IsVendor(vendor) && IsImei(imei) && |payload| < 0x1_0000
    ensures var f := BuildFrame(vendor, imei, payload);
            && Cut(f) == Some(Frame(f)) && HeaderAt(f, 0) && ImeiOf(f) == imei
            && |f| == |payload| + 21 && Body(f) == Packet(f)
  {
    var f := BuildFrame(vendor, imei, payload);
    Assoc(Header(vendor, imei, |payload|), payload, [SHUT]);
    BuiltHeader(vendor, imei, |payload|, payload + [SHUT]);
    assert FindHeader(f, 0) == 0;
    assert f[..|payload| + 21] == f;
  }

  /** A response that declares its length in four digits reaches the terminal as the frame with its imei. */
  lemma EnframeFillsImei(payload: seq<byte>, imei: seq<byte>)
    requires IsImei(imei) && |payload| < 0x1_0000
    ensures Enframe(Packed(payload), Some(imei)) == Some(BuildFrame(LT, imei, payload))
  {
    var p := Packed(payload);
    Assoc(Header(LT, ZERO_IMEI, |payload|), payload, [SHUT]);
    BuiltHeader(LT, ZERO_IMEI, |payload|, payload + [SHUT]);
    FrameStartMeaning(p);
    assert FindHeader(p, 0) == 0;
    assert p[0..] == p;
    Assoc(Header(LT, imei, |payload|), payload, [SHUT]);
  }

  /** With more digits its header no longer matches, and it cannot be sent at all. */
  lemma EnframeTooLong(payload: seq<byte>, imei: Option<seq<byte>>)
    requires |payload| >= 0x1_0000
    ensures Enframe(Packed(payload), imei) == None
  {
    var p := Packed(payload);
    var hex := Hex04(|payload|);
    HexRoundTrip(|payload|);
    assert |hex| >= 5;
    var h := [OPEN] + LT + [STAR] + ZERO_IMEI + [STAR] + hex;
    assert p[19] == h[19] == hex[4];
    assert hex[4] in hex;
    assert !InClass(p[0 + 19], ClassAt(19));
    FindsFirstHeader(p, 0);
  }

  lemma EnframeExact(payload: seq<byte>, imei: seq<byte>)
    requires IsImei(imei)
    ensures Enframe(Packed(payload), Some(imei)) == Some(BuildFrame(LT, imei, payload)) <==> |payload| < 0x1_0000
  {
    if |payload| < 0x1_0000 {
      EnframeFillsImei(payload, imei);
    } else {
      EnframeTooLong(payload, Some(imei));
    }
  }

  predicate Built(f: seq<byte>, imei: seq<byte>) {
    && Cut(f) == Some(Frame(f)) && HeaderAt(f, 0) && ImeiOf(f) == imei && Body(f) == Packet(f)
  }

  function PacketMsgs(frames: seq<seq<byte>>): (msgs: seq<Msg>)
    ensures |msgs| == |frames|
    ensures forall i :: 0 <= i < |frames| ==> msgs[i] == Packet(frames[i])
  {
    if frames == [] then [] else [Packet(frames[0])] + PacketMsgs(frames[1..])
  }

  function BuildAll(vendor: seq<byte>, imei: seq<byte>, payloads: seq<seq<byte>>): (frames: seq<seq<byte>>)
    ensures |frames| == |payloads|
    ensures forall i :: 0 <= i < |payloads| ==> frames[i] == BuildFrame(vendor, imei, payloads[i])
  {
    if payloads == [] then [] else [BuildFrame(vendor, imei, payloads[0])] + BuildAll(vendor, imei, payloads[1..])
  }

  lemma {:induction false} FramesMsgs(imei: seq<byte>, frames: seq<seq<byte>>)
    requires forall f :: f in frames ==> Built(f, imei)
    ensures SpansMsgs(Some(imei), Frames(frames)) == PacketMsgs(frames)
    ensures frames != [] ==> FirstImei(Frames(frames), []) == Some(imei)
    decreases |frames|
  {
    if frames != [] {
      var f := frames[0];
      assert Built(f, imei);
      FramesMsgs(imei, frames[1..]);
      assert Notice(Some(imei), f) + [Body(f)] == [Packet(f)];
      assert Frames(frames)[0] == Frame(f) && Frames(frames)[1..] == Frames(frames[1..]);
    }
  }

  /** The reference on a stream of built frames: every frame, no diagnostics, nothing left over. */
  lemma ReferenceTransparency(imei: seq<byte>, frames: seq<seq<byte>>)
    requires forall f :: f in frames ==> Built(f, imei)
    ensures Reference(None, Flatten(frames)) ==
            Received(PacketMsgs(frames), State([], if frames == [] then None else Some(imei), 0))
  {
    ReferenceOfNothing(None);
    if frames != [] {
      CutSound();
      CutStable();
      forall f | f in frames ensures Cut(f) == Some(Frame(f)) {
        assert Built(f, imei);
      }
      AtomicPieces(Cut, frames);
      FramesMsgs(imei, frames);
      assert PacketMsgs(frames) + [] == PacketMsgs(frames);
    }
  }

  predicate NoMismatch(msgs: seq<Msg>) {
    forall i :: 0 <= i < |msgs| ==> !msgs[i].Mismatch?
  }

  lemma {:induction false} CollapseChangesNothing(msgs: seq<Msg>)
    requires NoMismatch(Collapse(msgs))
    ensures Collapse(msgs) == msgs
  {
    if |msgs| > 1 {
      var init, last := msgs[..|msgs| - 1], msgs[|msgs| - 1];
      CollapseKeepsLast(msgs);
      assert !last.Mismatch?;
      assert Collapse(msgs) == Collapse(init) + [last];
      assert forall i :: 0 <= i < |Collapse(init)| ==> Collapse(init)[i] == Collapse(msgs)[i];
      CollapseChangesNothing(init);
    }
  }

  /** Any cutting into segments without overflow returns the frames one by one, with no notices at all. */
  lemma RunTransparency(imei: seq<byte>, frames: seq<seq<byte>>, segments: seq<seq<byte>>)
    requires forall f :: f in frames ==> Built(f, imei)
    requires Flatten(segments) == Flatten(frames)
    requires NoOverflow(FRESH, segments)
    ensures Run(FRESH, segments) ==
            Received(PacketMsgs(frames), State([], if frames == [] then None else Some(imei), 0))
  {
    var run := Run(FRESH, segments);
    var whole := Reference(None, Flatten(frames));
    assert run.state == whole.state && Collapse(run.msgs) == whole.msgs by {
      SegmentationExact(segments);
    }
    ReferenceTransparency(imei, frames);
    assert NoMismatch(PacketMsgs(frames));
    CollapseChangesNothing(run.msgs);
  }

  /** The bound on the buffer of the reference is that on the buffer of the run. */
  lemma {:induction false} FitsIsNoOverflow(h: seq<byte>, segments: seq<seq<byte>>)
    requires Sound(Cut)
    ensures Fits(Cut, Deframe(Cut, h).rest, segments, MAXBUFFER) <==> NoOverflow(Reference(None, h).state, segments)
    decreases |segments|
  {
    if segments != [] && |Deframe(Cut, h).rest + segments[0]| <= MAXBUFFER {
      CutStable();
      var news := CallExact(h, segments[0]);
      DeframeAppend(Cut, h, segments[0]);
      FitsIsNoOverflow(h + segments[0], segments[1..]);
    }
  }

  lemma BuiltFramesFit(imei: seq<byte>, frames: seq<seq<byte>>, segments: seq<seq<byte>>, longest: nat, widest: nat)
    requires forall f :: f in frames ==> Built(f, imei) && |f| <= longest
    requires forall s :: s in segments ==> |s| <= widest
    requires longest - 1 + widest <= MAXBUFFER && widest <= MAXBUFFER
    requires Flatten(segments) <= Flatten(frames)
    ensures NoOverflow(FRESH, segments)
  {
    CutSound();
    CutStable();
    forall f | f in frames ensures Cut(f) == Some(Frame(f)) {
      assert Built(f, imei);
    }
    ReferenceOfNothing(None);
    var h: seq<byte> := [];
    assert h + Flatten(segments) == Flatten(segments);
    ConformingFits(Cut, frames, h, segments, longest, widest, MAXBUFFER);
    FitsIsNoOverflow(h, segments);
  }

  /**
    Frames of one terminal with arbitrary payloads, no frame longer than `longest` and no segment longer than
    `widest`: the drop branch is never taken and every frame is returned.
  */
  lemma ConformingTraffic(vendor: seq<byte>, imei: seq<byte>, payloads: seq<seq<byte>>,
                          segments: seq<seq<byte>>, longest: nat, widest: nat)
    requires IsVendor(vendor) && IsImei(imei)
    requires forall p :: p in payloads ==> |p| < 0x1_0000 && |p| + 21 <= longest
    requires forall s :: s in segments ==> |s| <= widest
    requires longest - 1 + widest <= MAXBUFFER && widest <= MAXBUFFER
    requires Flatten(segments) <= Flatten(BuildAll(vendor, imei, payloads))
    ensures NoOverflow(FRESH, segments)
    ensures Flatten(segments) == Flatten(BuildAll(vendor, imei, payloads)) ==>
              Run(FRESH, segments) == Received(PacketMsgs(BuildAll(vendor, imei, payloads)),
                                               State([], if payloads == [] then None else Some(imei), 0))
  {
    var frames := BuildAll(vendor, imei, payloads);
    AllBuilt(vendor, imei, payloads, longest);
    BuiltFramesFit(imei, frames, segments, longest, widest);
    if Flatten(segments) == Flatten(frames) {
      RunTransparency(imei, frames, segments);
    }
  }

  lemma AllBuilt(vendor: seq<byte>, imei: seq<byte>, payloads: seq<seq<byte>>, longest: nat)
    requires IsVendor(vendor) && IsImei(imei)
    requires forall p :: p in payloads ==> |p| < 0x1_0000 && |p| + 21 <= longest
    ensures var frames := BuildAll(vendor, imei, payloads);
            forall f :: f in frames ==> Built(f, imei) && |f| <= longest
  {
    var frames := BuildAll(vendor, imei, payloads);
    forall f | f in frames ensures Built(f, imei) && |f| <= longest {
      var i :| 0 <= i < |frames| && frames[i] == f;
      assert payloads[i] in payloads;
      BuiltFrameCut(vendor, imei, payloads[i]);
    }
  }
}
