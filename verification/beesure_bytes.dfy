/**
  The beesure stream byte for byte: what counts as a header, what is cut off when, and what is said about it, spelled
  out in byte values and without the functions that the rest of the model is made of.
*/
module BeesureBytes {
  import opened Bytes
  import opened Deframing
  import opened HexText
  import opened Beesure
  import opened BeesureFraming
  import opened BeesureTransparency
  import opened BeesureOverflow

  // ----- headers -----

  lemma ClassesSpelledOut()
    ensures ClassAt(0) == Exactly(0x5B) && ClassAt(1) == Word && ClassAt(2) == Word && ClassAt(3) == Exactly(0x2A)
    ensures forall k :: 4 <= k < 14 ==> ClassAt(k) == Digit
    ensures ClassAt(14) == Exactly(0x2A) && ClassAt(19) == Exactly(0x2A)
    ensures forall k :: 15 <= k < 19 ==> ClassAt(k) == Hex
  {
  }

  /** A header: `[`, two letters, digits or underscores, `*`, ten digits, `*`, four hexadecimal digits, `*`. */
  lemma HeaderSpelledOut(b: seq<byte>, i: nat)
    ensures HeaderAt(b, i) <==>
            && i + 20 <= |b|
            && b[i] == 0x5B
            && (forall k :: i + 1 <= k < i + 3 ==>
                  0x30 <= b[k] <= 0x39 || 0x41 <= b[k] <= 0x5A || 0x61 <= b[k] <= 0x7A || b[k] == 0x5F)
            && b[i + 3] == 0x2A
            && (forall k :: i + 4 <= k < i + 14 ==> 0x30 <= b[k] <= 0x39)
            && b[i + 14] == 0x2A
            && (forall k :: i + 15 <= k < i + 19 ==>
                  0x30 <= b[k] <= 0x39 || 0x41 <= b[k] <= 0x46 || 0x61 <= b[k] <= 0x66)
            && b[i + 19] == 0x2A
  {
    ClassesSpelledOut();
    if HeaderAt(b, i) {
      assert InClass(b[i + 0], ClassAt(0)) && InClass(b[i + 3], ClassAt(3));
      assert InClass(b[i + 14], ClassAt(14)) && InClass(b[i + 19], ClassAt(19));
      forall k | i + 1 <= k < i + 19 ensures InClass(b[k], ClassAt(k - i)) {
        assert InClass(b[i + (k - i)], ClassAt(k - i));
      }
    } else if i + 20 <= |b| {
      var k :| 0 <= k < 20 && !InClass(b[i + k], ClassAt(k));
      assert b[i + k] == b[k + i];
    }
  }

  /** The declared length in its four digits `v`, the most significant first. */
  lemma LengthSpelledOut(b: seq<byte>) returns (v: seq<nat>)
    requires HeaderAt(b, 0)
    ensures |v| == 4 && DataLen(b) == 4096 * v[0] + 256 * v[1] + 16 * v[2] + v[3]
    ensures forall k :: 0 <= k < 4 ==>
              && (0x30 <= b[15 + k] <= 0x39 ==> v[k] == b[15 + k] as int - 0x30)
              && (0x41 <= b[15 + k] <= 0x46 ==> v[k] == b[15 + k] as int - 0x41 + 10)
              && (0x61 <= b[15 + k] <= 0x66 ==> v[k] == b[15 + k] as int - 0x61 + 10)
  {
    HeaderBytes(b);
    assert b[15..19] == [b[15], b[16], b[17], b[18]];
    v := FourDigits(b[15], b[16], b[17], b[18]);
  }

  lemma FourDigits(a: byte, b: byte, c: byte, d: byte) returns (v: seq<nat>)
    requires IsHex(a) && IsHex(b) && IsHex(c) && IsHex(d)
    ensures v == [HexValue(a), HexValue(b), HexValue(c), HexValue(d)]
    ensures AllHex([a, b, c, d]) && HexNumber([a, b, c, d]) == 4096 * v[0] + 256 * v[1] + 16 * v[2] + v[3]
  {
    v := [HexValue(a), HexValue(b), HexValue(c), HexValue(d)];
    var n1 := OneDigitMore([], a, [a], 0);
    var n2 := OneDigitMore([a], b, [a, b], n1);
    var n3 := OneDigitMore([a, b], c, [a, b, c], n2);
    var n4 := OneDigitMore([a, b, c], d, [a, b, c, d], n3);
  }

  lemma OneDigitMore(s: seq<byte>, c: byte, t: seq<byte>, n: nat) returns (m: nat)
    requires AllHex(s) && IsHex(c) && t == s + [c] && HexNumber(s) == n
    ensures AllHex(t) && HexNumber(t) == m == 16 * n + HexValue(c)
  {
    assert t[..|s|] == s;
    m := 16 * n + HexValue(c);
  }

  /** The vendor may be any two letters, digits or underscores. */
  lemma VendorSpelledOut(vendor: seq<byte>)
    ensures IsVendor(vendor) <==>
            && |vendor| == 2
            && forall k :: 0 <= k < 2 ==>
                 || 0x30 <= vendor[k] <= 0x39 || 0x41 <= vendor[k] <= 0x5A || 0x61 <= vendor[k] <= 0x7A
                 || vendor[k] == 0x5F
  {
  }

  lemma ImeiSpelledOut(imei: seq<byte>)
    ensures IsImei(imei) <==> |imei| == 10 && forall k :: 0 <= k < 10 ==> 0x30 <= imei[k] <= 0x39
  {
  }

  /** The four digits that declare a length, upper-case where they are letters. */
  lemma {:induction false} HexIsUpper(n: nat)
    ensures forall c :: c in HexOf(n) ==> 0x30 <= c <= 0x39 || 0x41 <= c <= 0x46
  {
    if n >= 16 {
      HexIsUpper(n / 16);
    }
  }

  lemma {:induction false} ZerosAreZeros(n: nat)
    ensures forall c :: c in Zeros(n) ==> c == 0x30
  {
    if n > 0 {
      ZerosAreZeros(n - 1);
    }
  }

  lemma Hex04IsUpper(n: nat)
    ensures forall c :: c in Hex04(n) ==> 0x30 <= c <= 0x39 || 0x41 <= c <= 0x46
  {
    HexIsUpper(n);
    ZerosAreZeros(if |HexOf(n)| < 4 then 4 - |HexOf(n)| else 0);
  }

  /** A built frame, byte for byte. */
  lemma FrameSpelledOut(vendor: seq<byte>, imei: seq<byte>, payload: seq<byte>)
    requires |vendor| == 2 && |imei| == 10 && |payload| < 0x1_0000
    ensures var f := BuildFrame(vendor, imei, payload);
            && |f| == |payload| + 21
            && f[0] == 0x5B && f[1..3] == vendor && f[3] == 0x2A && f[4..14] == imei && f[14] == 0x2A
            && (forall k :: 15 <= k < 19 ==> 0x30 <= f[k] <= 0x39 || 0x41 <= f[k] <= 0x46)
            && f[19] == 0x2A && f[20..20 + |payload|] == payload && f[|f| - 1] == 0x5D
  {
    var hex, f := Hex04(|payload|), BuildFrame(vendor, imei, payload);
    HexRoundTrip(|payload|);
    Hex04IsUpper(|payload|);
    forall k | 15 <= k < 19 ensures 0x30 <= f[k] <= 0x39 || 0x41 <= f[k] <= 0x46 {
      assert f[k] == hex[k - 15] && hex[k - 15] in hex;
    }
  }

  /** What is built as a response before the imei is filled in. */
  lemma PackedSpelledOut(payload: seq<byte>)
    requires |payload| < 0x1_0000
    ensures Packed(payload)[..15] ==
            [0x5B, 0x4C, 0x54, 0x2A, 0x30, 0x30, 0x30, 0x30, 0x30, 0x30, 0x30, 0x30, 0x30, 0x30, 0x2A]
    ensures |Packed(payload)| == |payload| + 21
  {
    FrameSpelledOut(LT, ZERO_IMEI, payload);
  }

  /** Frames of any terminal of any vendor come back one by one, however they are cut, as long as nothing overflows. */
  lemma EveryVendor(vendor: seq<byte>, imei: seq<byte>, payloads: seq<seq<byte>>, segments: seq<seq<byte>>)
    requires |vendor| == 2 && |imei| == 10
    requires forall k :: 0 <= k < 2 ==>
               || 0x30 <= vendor[k] <= 0x39 || 0x41 <= vendor[k] <= 0x5A || 0x61 <= vendor[k] <= 0x7A
               || vendor[k] == 0x5F
    requires forall k :: 0 <= k < 10 ==> 0x30 <= imei[k] <= 0x39
    requires forall p :: p in payloads ==> |p| < 0x1_0000
    requires Flatten(segments) == Flatten(BuildAll(vendor, imei, payloads)) && NoOverflow(FRESH, segments)
    ensures Run(FRESH, segments) == Received(PacketMsgs(BuildAll(vendor, imei, payloads)),
                                             State([], if payloads == [] then None else Some(imei), 0))
  {
    VendorSpelledOut(vendor);
    ImeiSpelledOut(imei);
    AllBuilt(vendor, imei, payloads, LONGEST);
    RunTransparency(imei, BuildAll(vendor, imei, payloads), segments);
  }

  // ----- cuts -----

  /** What is cut off, and that nothing is, in terms of where headers stand and what the first one declares. */
  lemma CutSpelledOut(b: seq<byte>)
    ensures match Cut(b)
            case None =>
              || (forall i: nat :: !HeaderAt(b, i))
              || (HeaderAt(b, 0) && |b| < DataLen(b) + 21)
            case Some(Junk(j)) =>
              0 < |j| && j <= b && HeaderAt(b, |j|) && forall i: nat :: i < |j| ==> !HeaderAt(b, i)
            case Some(Frame(f)) =>
              HeaderAt(b, 0) && f <= b && |f| == DataLen(b) + 21
  {
    FindsFirstHeader(b, 0);
  }

  /** What is said about a span. A frame that does not end in `]` is reported by the offset of its last byte. */
  lemma SpanReported(latched: Option<seq<byte>>, span: Span)
    requires span.Frame? ==> HeaderAt(span.bytes, 0)
    ensures match span
            case Junk(j) => SpanMsgs(latched, span) == [Skipping(|j|, if |j| <= 64 then j else j[..64])]
            case Frame(f) =>
              SpanMsgs(latched, span) ==
              (if latched.Some? && latched.value != f[4..14] then [Mismatch(f[4..14], latched.value)] else [])
              + [if f[|f| - 1] == 0x5D then Packet(f) else BadEnd(|f| - 1)]
  {
  }

  // ----- the limit -----

  /** A segment is dropped, with all that has been collected, if and only if the two come to more than 65557 bytes. */
  lemma DroppedBeyond(st: State, segment: seq<byte>)
    ensures |st.buffer| + |segment| > 65557 <==> Dropped in Receive(st, segment).msgs
    ensures |st.buffer| + |segment| > 65557 ==>
              Receive(st, segment) == Received([Dropped], State([], st.imei, st.datalen))
  {
    var b := st.buffer + segment;
    if |b| <= 65557 {
      NeverDropped(st.imei, b);
      if st.datalen != 0 && |b| >= st.datalen + 21 {
        NeverDropped(st.imei, b[st.datalen + 21..]);
      }
    }
  }

  lemma NeverDropped(imei: Option<seq<byte>>, b: seq<byte>)
    ensures Dropped !in Reference(imei, b).msgs
  {
    AllWellFormed(imei, b);
  }

  /** With reads of up to 4096 bytes the longest frames that can never overflow the buffer have 61462 bytes. */
  lemma LongestSafeFrame(imei: seq<byte>, longest: nat)
    requires IsImei(imei) && 21 <= longest <= 65556
    ensures (forall frames, segments ::
               Conforms(imei, frames, segments, longest, 4096) ==> NoOverflow(FRESH, segments))
            <==> longest <= 61462
  {
    BoundExact(imei, longest, 4096);
  }
}
