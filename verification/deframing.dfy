/**
  What the two deframers have in common. A protocol says how to cut the next span off the front of
  the bytes collected so far; everything about feeding it a stream piece by piece follows from that cut
  being sound (it takes a nonempty prefix) and stable (bytes that arrive later never change it).
*/
module Deframing {
  import opened Bytes

  /** A stretch of the stream that one step consumes: bytes skipped before a frame, or one whole frame. */
  datatype Span = Junk(bytes: seq<byte>) | Frame(bytes: seq<byte>)

  type Cutter = seq<byte> -> Option<Span>

  datatype Parse = Parse(spans: seq<Span>, rest: seq<byte>)

  ghost predicate Sound(cut: Cutter) {
    forall b :: cut(b).Some? ==> cut(b).value.bytes != [] && cut(b).value.bytes <= b
  }

  /** What is cut off `b` is the same when `c` has arrived as well. */
  ghost predicate Keeps(cut: Cutter, b: seq<byte>, c: seq<byte>) {
    cut(b).Some? ==> cut(b + c) == cut(b)
  }

  ghost predicate Stable(cut: Cutter) {
    forall b, c :: Keeps(cut, b, c)
  }

  /** One pass over `b`: cut spans off the front until no more can be cut. */
  function Deframe(cut: Cutter, b: seq<byte>): Parse
    requires Sound(cut)
    decreases |b|
  {
    match cut(b)
    case None => Parse([], b)
    case Some(span) =>
      var later := Deframe(cut, b[|span.bytes|..]);
      Parse([span] + later.spans, later.rest)
  }

  function Pieces(spans: seq<Span>): (pieces: seq<seq<byte>>)
    ensures |pieces| == |spans|
    ensures forall i :: 0 <= i < |spans| ==> pieces[i] == spans[i].bytes
  {
    if spans == [] then [] else [spans[0].bytes] + Pieces(spans[1..])
  }

  function Frames(pieces: seq<seq<byte>>): (spans: seq<Span>)
    ensures |spans| == |pieces|
    ensures forall i :: 0 <= i < |pieces| ==> spans[i] == Frame(pieces[i])
  {
    if pieces == [] then [] else [Frame(pieces[0])] + Frames(pieces[1..])
  }

  /** What is left over is not ready to be cut. */
  lemma {:induction false} Settled(cut: Cutter, b: seq<byte>)
    requires Sound(cut)
    ensures cut(Deframe(cut, b).rest).None?
    decreases |b|
  {
    if cut(b).Some? {
      Settled(cut, b[|cut(b).value.bytes|..]);
    }
  }

  /** No byte is lost, invented or moved, and every span takes at least one. */
  lemma {:induction false} Conservation(cut: Cutter, b: seq<byte>)
    requires Sound(cut)
    ensures Flatten(Pieces(Deframe(cut, b).spans)) + Deframe(cut, b).rest == b
    ensures |Deframe(cut, b).spans| + |Deframe(cut, b).rest| <= |b|
    decreases |b|
  {
    match cut(b) {
      case None =>
      case Some(span) =>
        var tail := b[|span.bytes|..];
        Conservation(cut, tail);
        var later := Deframe(cut, tail);
        assert ([span] + later.spans)[1..] == later.spans;
        FlattenCons(span.bytes, Pieces(later.spans));
        Assoc(span.bytes, Flatten(Pieces(later.spans)), later.rest);
        assert b == span.bytes + tail;
    }
  }

  /** Parsing what arrives later from the leftover continues the parse of what came before. */
  lemma {:induction false} DeframeAppend(cut: Cutter, a: seq<byte>, b: seq<byte>)
    requires Sound(cut) && Stable(cut)
    ensures var first := Deframe(cut, a);
            var second := Deframe(cut, first.rest + b);
            Deframe(cut, a + b) == Parse(first.spans + second.spans, second.rest)
    decreases |a|
  {
    match cut(a) {
      case None =>
        assert [] + Deframe(cut, a + b).spans == Deframe(cut, a + b).spans;
      case Some(span) =>
        var n := |span.bytes|;
        assert Keeps(cut, a, b);
        assert (a + b)[n..] == a[n..] + b;
        DeframeAppend(cut, a[n..], b);
        var later := Deframe(cut, a[n..]);
        var second := Deframe(cut, later.rest + b);
        Assoc([span], later.spans, second.spans);
    }
  }

  /** Feed the segments one after the other, keeping only the leftover between them. */
  function DeframeSegments(cut: Cutter, rest: seq<byte>, segments: seq<seq<byte>>): Parse
    requires Sound(cut)
    decreases |segments|
  {
    if segments == [] then Parse([], rest)
    else
      var now := Deframe(cut, rest + segments[0]);
      var later := DeframeSegments(cut, now.rest, segments[1..]);
      Parse(now.spans + later.spans, later.rest)
  }

  /** However the stream is cut into segments, the spans and the leftover are those of one pass. */
  lemma {:induction false} SegmentationIndependence(cut: Cutter, rest: seq<byte>, segments: seq<seq<byte>>)
    requires Sound(cut) && Stable(cut) && cut(rest).None?
    ensures DeframeSegments(cut, rest, segments) == Deframe(cut, rest + Flatten(segments))
    decreases |segments|
  {
    if segments == [] {
      assert rest + Flatten(segments) == rest;
    } else {
      var now := Deframe(cut, rest + segments[0]);
      var more := Flatten(segments[1..]);
      Settled(cut, rest + segments[0]);
      SegmentationIndependence(cut, now.rest, segments[1..]);
      DeframeAppend(cut, rest + segments[0], more);
      Assoc(rest, segments[0], more);
    }
  }

  /** Every piece is cut off whole as soon as it is complete. */
  ghost predicate Atomic(cut: Cutter, pieces: seq<seq<byte>>) {
    forall p :: p in pieces ==> cut(p) == Some(Frame(p))
  }

  lemma {:induction false} AtomicPieces(cut: Cutter, pieces: seq<seq<byte>>)
    requires Sound(cut) && Stable(cut) && Atomic(cut, pieces)
    requires cut([]).None?
    ensures Deframe(cut, Flatten(pieces)) == Parse(Frames(pieces), [])
    decreases |pieces|
  {
    if pieces != [] {
      var p, more := pieces[0], Flatten(pieces[1..]);
      AtomicPieces(cut, pieces[1..]);
      assert cut(p) == Some(Frame(p)) && Keeps(cut, p, more);
      assert (p + more)[|p|..] == more;
      assert Frames(pieces) == [Frame(p)] + Frames(pieces[1..]);
    }
  }

  /** A proper prefix of an atomic piece is not cut at all. */
  lemma PrefixWaits(cut: Cutter, piece: seq<byte>, prefix: seq<byte>)
    requires Sound(cut) && Stable(cut)
    requires cut(piece) == Some(Frame(piece))
    requires prefix < piece
    ensures cut(prefix).None?
  {
    assert Keeps(cut, prefix, piece[|prefix|..]);
    assert piece == prefix + piece[|prefix|..];
  }

  /** At any moment of a stream of atomic pieces the leftover is shorter than the longest piece. */
  lemma {:induction false} Residue(cut: Cutter, pieces: seq<seq<byte>>, seen: seq<byte>, longest: nat)
    requires Sound(cut) && Stable(cut) && Atomic(cut, pieces) && cut([]).None?
    requires forall p :: p in pieces ==> |p| <= longest
    requires seen <= Flatten(pieces)
    ensures var rest := Deframe(cut, seen).rest;
            rest == [] || exists p :: p in pieces && rest < p && |rest| < longest
    decreases |pieces|
  {
    if pieces != [] {
      var p, more := pieces[0], Flatten(pieces[1..]);
      if |seen| < |p| {
        assert seen == p[..|seen|];
        PrefixWaits(cut, p, seen);
      } else {
        assert seen == p + seen[|p|..];
        var tail := seen[|p|..];
        assert tail <= more;
        Residue(cut, pieces[1..], tail, longest);
        assert cut(p) == Some(Frame(p)) && Keeps(cut, p, tail);
        assert Deframe(cut, seen).rest == Deframe(cut, tail).rest;
        var rest := Deframe(cut, tail).rest;
        if rest != [] {
          var q :| q in pieces[1..] && rest < q && |rest| < longest;
          assert q in pieces;
        }
      }
    }
  }

  /** No arrival makes the buffer exceed `limit` bytes. */
  ghost predicate Fits(cut: Cutter, rest: seq<byte>, segments: seq<seq<byte>>, limit: nat)
    requires Sound(cut)
    decreases |segments|
  {
    segments == [] ||
    (|rest + segments[0]| <= limit && Fits(cut, Deframe(cut, rest + segments[0]).rest, segments[1..], limit))
  }

  /**
    Conforming traffic never overflows: `before` has been seen, `segments` are still to come, and
    together they are a prefix of a stream of atomic pieces no longer than `longest`.
  */
  lemma {:induction false} ConformingFits(cut: Cutter, pieces: seq<seq<byte>>, before: seq<byte>,
                                          segments: seq<seq<byte>>, longest: nat, widest: nat, limit: nat)
    requires Sound(cut) && Stable(cut) && Atomic(cut, pieces) && cut([]).None?
    requires forall p :: p in pieces ==> |p| <= longest
    requires forall s :: s in segments ==> |s| <= widest
    requires longest - 1 + widest <= limit && widest <= limit
    requires before + Flatten(segments) <= Flatten(pieces)
    ensures Fits(cut, Deframe(cut, before).rest, segments, limit)
    decreases |segments|
  {
    if segments != [] {
      var s, more := segments[0], Flatten(segments[1..]);
      var stream := Flatten(pieces);
      assert before + Flatten(segments) == (before + s) + more;
      assert before <= stream && before + s <= stream;
      Residue(cut, pieces, before, longest);
      assert |Deframe(cut, before).rest + s| <= limit;
      DeframeAppend(cut, before, s);
      ConformingFits(cut, pieces, before + s, segments[1..], longest, widest, limit);
    }
  }

  /** The same bytes, one at a time. */
  function Singles(b: seq<byte>): seq<seq<byte>> {
    if b == [] then [] else [b[..1]] + Singles(b[1..])
  }

  lemma {:induction false} SinglesJoin(b: seq<byte>)
    ensures Flatten(Singles(b)) == b
    ensures forall s :: s in Singles(b) ==> |s| == 1
  {
    if b != [] {
      SinglesJoin(b[1..]);
      FlattenCons(b[..1], Singles(b[1..]));
    }
  }

  /** All but the last byte of a piece, from offset `j` on and byte by byte, and then one segment more. */
  function Approach(piece: seq<byte>, j: nat, segment: seq<byte>): seq<seq<byte>>
    requires j < |piece|
  {
    Singles(piece[j..|piece| - 1]) + [segment]
  }

  lemma ApproachStep(piece: seq<byte>, j: nat, segment: seq<byte>)
    requires j < |piece| - 1
    ensures Approach(piece, j, segment) == [piece[j..j + 1]] + Approach(piece, j + 1, segment)
  {
    var part := piece[j..|piece| - 1];
    assert part[..1] == piece[j..j + 1] && part[1..] == piece[j + 1..|piece| - 1];
    Assoc([part[..1]], Singles(part[1..]), [segment]);
  }

  /** A segment after which nothing is ready stays in the buffer, all of it. */
  lemma FitsStep(cut: Cutter, rest: seq<byte>, s: seq<byte>, more: seq<seq<byte>>, limit: nat)
    requires Sound(cut) && Fits(cut, rest, [s] + more, limit)
    ensures |rest| + |s| <= limit
    ensures cut(rest + s).None? ==> Fits(cut, rest + s, more, limit)
  {
    assert ([s] + more)[1..] == more;
  }

  /** The bound cannot be improved: what has arrived of a piece waits in the buffer until its last byte is there. */
  lemma {:induction false} ApproachFills(cut: Cutter, piece: seq<byte>, j: nat, segment: seq<byte>, limit: nat)
    requires Sound(cut) && Stable(cut) && cut(piece) == Some(Frame(piece)) && j < |piece|
    requires Fits(cut, piece[..j], Approach(piece, j, segment), limit)
    ensures |piece| - 1 + |segment| <= limit
    decreases |piece| - j
  {
    if j < |piece| - 1 {
      ApproachStep(piece, j, segment);
      FitsStep(cut, piece[..j], piece[j..j + 1], Approach(piece, j + 1, segment), limit);
      assert piece[..j] + piece[j..j + 1] == piece[..j + 1];
      PrefixWaits(cut, piece, piece[..j + 1]);
      ApproachFills(cut, piece, j + 1, segment, limit);
    } else {
      assert Approach(piece, j, segment) == [segment] + [];
      FitsStep(cut, piece[..j], segment, [], limit);
    }
  }

  function Repeat(piece: seq<byte>, n: nat): (pieces: seq<seq<byte>>)
    ensures |pieces| == n && forall p :: p in pieces ==> p == piece
  {
    if n == 0 then [] else [piece] + Repeat(piece, n - 1)
  }

  lemma {:induction false} RepeatedBytes(piece: seq<byte>, n: nat)
    requires piece != []
    ensures |Flatten(Repeat(piece, n))| >= n
  {
    if n > 0 {
      RepeatedBytes(piece, n - 1);
    }
  }

  /** A stream of copies of one piece whose segments, none wider than `widest`, exceed a limit below the bound. */
  lemma TooNarrow(cut: Cutter, piece: seq<byte>, widest: nat, limit: nat)
    returns (pieces: seq<seq<byte>>, segments: seq<seq<byte>>)
    requires Sound(cut) && Stable(cut) && cut(piece) == Some(Frame(piece)) && cut([]).None?
    requires widest > 0 && |piece| - 1 + widest > limit
    ensures forall p :: p in pieces ==> p == piece
    ensures forall s :: s in segments ==> |s| <= widest
    ensures Flatten(segments) <= Flatten(pieces)
    ensures !Fits(cut, [], segments, limit)
  {
    assert piece != [];
    pieces := Repeat(piece, widest + 1);
    RepeatedBytes(piece, widest);
    var more, n := Flatten(Repeat(piece, widest)), |piece| - 1;
    var segment := [piece[n]] + more[..widest - 1];
    segments := Approach(piece, 0, segment);
    ApproachBytes(piece, segment);
    assert Flatten(segments) == piece + more[..widest - 1];
    assert Flatten(segments) <= piece + more;
    forall s | s in segments ensures |s| <= widest {
      SinglesJoin(piece[0..n]);
    }
    if Fits(cut, [], segments, limit) {
      assert piece[..0] == [];
      ApproachFills(cut, piece, 0, segment, limit);
    }
  }

  lemma ApproachBytes(piece: seq<byte>, segment: seq<byte>)
    requires piece != []
    ensures Flatten(Approach(piece, 0, segment)) == piece[..|piece| - 1] + segment
  {
    var most := piece[..|piece| - 1];
    assert piece[0..|piece| - 1] == most;
    SinglesJoin(most);
    FlattenAppend(Singles(most), [segment]);
    assert Flatten([segment]) == segment + [] == segment;
  }
}
