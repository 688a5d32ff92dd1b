/**
  The zx303 stream byte for byte: what is cut off when, and what is said about it, spelled out in byte values and
  without the functions that the rest of the model is made of.
*/
module Zx303Bytes {
  import opened Bytes
  import opened Deframing
  import opened Zx303
  import opened Zx303Framing

  /** `xx` stands at offset `i`. */
  predicate XxAt(b: seq<byte>, i: nat) {
    i + 2 <= |b| && b[i] == 0x78 && b[i + 1] == 0x78
  }

  /** CR LF stands at offset `i`. */
  predicate CrLfAt(b: seq<byte>, i: nat) {
    i + 2 <= |b| && b[i] == 0x0D && b[i + 1] == 0x0A
  }

  lemma PairsSpelledOut(b: seq<byte>, i: nat)
    ensures PairAt(b, SMALL_X, SMALL_X, i) <==> XxAt(b, i)
    ensures PairAt(b, CR, LF, i) <==> CrLfAt(b, i)
  {
  }

  /**
    Without `xx` nothing is cut off; bytes before the first `xx` are; from an `xx` at the front on everything up to the
    first CR LF at or after the offset that the third byte gives is, once there are six bytes at all. A third byte of
    zero gives an offset of one.
  */
  lemma CutSpelledOut(b: seq<byte>)
    ensures match Cut(b)
            case None =>
              || (forall i: nat :: !XxAt(b, i))
              || (XxAt(b, 0) && (|b| < 6 || forall i: nat :: 1 <= i && b[2] as int <= i ==> !CrLfAt(b, i)))
            case Some(Junk(j)) =>
              0 < |j| && j <= b && XxAt(b, |j|) && forall i: nat :: i < |j| ==> !XxAt(b, i)
            case Some(Frame(f)) =>
              && XxAt(b, 0) && |b| >= 6 && f <= b && |f| >= 3 && CrLfAt(b, |f| - 2) && b[2] as int <= |f| - 2
              && forall i: nat :: 1 <= i < |f| - 2 && b[2] as int <= i ==> !CrLfAt(b, i)
  {
    forall i: nat
      ensures PairAt(b, SMALL_X, SMALL_X, i) <==> XxAt(b, i)
      ensures PairAt(b, CR, LF, i) <==> CrLfAt(b, i)
    {
      PairsSpelledOut(b, i);
    }
  }

  /** What is said about a span: how much was skipped and how it began, or the frame without two bytes at either end. */
  lemma SpanReported(span: Span)
    requires span.Frame? ==> |span.bytes| >= 4
    ensures match span
            case Junk(j) => Report(span) == Undecodable(|j|, if |j| <= 64 then j else j[..64])
            case Frame(f) =>
              Report(span) == if |f| < 6 then TooShort(f[2..|f| - 2]) else Packet(f[2..|f| - 2])
  {
  }

  /** Framing puts `xx` in front and CR LF behind. */
  lemma EnframeSpelledOut(packet: seq<byte>)
    ensures Enframe(packet) == [0x78, 0x78] + packet + [0x0D, 0x0A]
  {
  }

  /** A segment is dropped, with all that has been collected, if and only if the two come to more than 4096 bytes. */
  lemma DroppedBeyond(buffer: seq<byte>, segment: seq<byte>)
    ensures |buffer| + |segment| > 4096 <==> Dropped in Receive(buffer, segment).msgs
    ensures |buffer| + |segment| > 4096 ==> Receive(buffer, segment) == Received([Dropped], [])
  {
    if |buffer| + |segment| <= 4096 {
      MessagesWellFormed(buffer + segment);
    }
  }

  /** A full read of 4096 bytes is dropped if and only if anything waits. */
  lemma FullReadDropped(buffer: seq<byte>, segment: seq<byte>)
    requires |segment| == 4096
    ensures Dropped in Receive(buffer, segment).msgs <==> buffer != []
  {
    DroppedBeyond(buffer, segment);
  }

  /** With frames up to `longest` bytes, reads up to `widest` are safe if and only if both come to at most 4097. */
  lemma WidestSafeRead(longest: nat, widest: nat)
    requires longest >= 6 && widest >= 1
    ensures (forall packets, segments :: Conforms(packets, segments, longest, widest) ==> NoOverflow([], segments))
            <==> longest + widest <= 4097
  {
    BoundExact(longest, widest);
  }
}
