/** Splitting a decompressed download into lines while it is still coming in. */
module Unzipped {
  import opened Bytes

  /** The offset of the first newline, or -1. */
  function FindNewline(s: seq<byte>): (at: int)
    ensures at == -1 || (0 <= at < |s| && s[at] == LF)
    ensures forall i :: 0 <= i < |s| && (at == -1 || i < at) ==> s[i] != LF
  {
    if s == [] then -1
    else if s[0] == LF then 0
    else
      var at := FindNewline(s[1..]);
      if at == -1 then -1 else at + 1
  }

  datatype Split = NoNewline | Split(line: seq<byte>, rest: seq<byte>)

  /** Python's `s.split(b"\n", maxsplit=1)`. */
  function SplitOnce(s: seq<byte>): Split {
    var at := FindNewline(s);
    if at == -1 then NoNewline else Split(s[..at], s[at + 1..])
  }

  /** The newline-terminated lines of a whole text. */
  function Lines(text: seq<byte>): seq<seq<byte>> {
    match SplitOnce(text)
    case NoNewline => []
    case Split(line, rest) => [line] + Lines(rest)
  }

  /** What follows the last newline. */
  function Tail(text: seq<byte>): seq<byte> {
    match SplitOnce(text)
    case NoNewline => text
    case Split(_, rest) => Tail(rest)
  }

  function Join(lines: seq<seq<byte>>): seq<byte> {
    if lines == [] then [] else lines[0] + [LF] + Join(lines[1..])
  }

  lemma JoinCons(line: seq<byte>, lines: seq<seq<byte>>)
    ensures Join([line] + lines) == line + [LF] + Join(lines)
  {
    assert ([line] + lines)[1..] == lines;
  }

  lemma SplitCovers(text: seq<byte>)
    requires SplitOnce(text).Split?
    ensures text == SplitOnce(text).line + [LF] + SplitOnce(text).rest && LF !in SplitOnce(text).line
  {
  }

  /** Lines and tail make up the text, and no newline is hidden in them. */
  lemma {:induction false} LinesCover(text: seq<byte>)
    ensures Join(Lines(text)) + Tail(text) == text
    ensures LF !in Tail(text) && forall l :: l in Lines(text) ==> LF !in l
    decreases |text|
  {
    match SplitOnce(text) {
      case NoNewline =>
      case Split(line, rest) =>
        LinesCover(rest);
        SplitCovers(text);
        JoinCons(line, Lines(rest));
        Assoc(line + [LF], Join(Lines(rest)), Tail(rest));
    }
  }

  /** There is only one way to take a text apart like that. */
  lemma {:induction false} LinesUnique(lines: seq<seq<byte>>, tail: seq<byte>)
    requires LF !in tail && forall l :: l in lines ==> LF !in l
    ensures Lines(Join(lines) + tail) == lines && Tail(Join(lines) + tail) == tail
    decreases |lines|
  {
    if lines == [] {
      assert Join(lines) + tail == tail;
    } else {
      var rest := Join(lines[1..]) + tail;
      var text := lines[0] + [LF] + rest;
      LinesUnique(lines[1..], tail);
      Assoc(lines[0] + [LF], Join(lines[1..]), tail);
      SplitAtFirst(lines[0], rest);
    }
  }

  lemma SplitAtFirst(line: seq<byte>, rest: seq<byte>)
    requires LF !in line
    ensures SplitOnce(line + [LF] + rest) == Split(line, rest)
  {
    var text := line + [LF] + rest;
    assert forall i :: 0 <= i < |line| ==> text[i] == line[i] && line[i] in line;
    assert text[|line|] == LF;
    assert FindNewline(text) == |line|;
    assert text[..|line|] == line && text[|line| + 1..] == rest;
  }

  /** One raw read from the network and what the decompressor makes of it. */
  datatype Chunk = Chunk(raw: seq<byte>, out: seq<byte>)

  function Outputs(chunks: seq<Chunk>): seq<byte> {
    if chunks == [] then [] else chunks[0].out + Outputs(chunks[1..])
  }

  /** The environment: the chunks still to come, each of them nonempty, and then the end of the file. */
  class ZStream {
    var chunks: seq<Chunk>

    constructor (script: seq<Chunk>)
      ensures chunks == script
    {
      chunks := script;
    }

    /** At the end of the file the read returns no data, and no data decompresses to nothing. */
    method Read() returns (chunk: Chunk)
      modifies this
      ensures old(chunks) == [] ==> chunk == Chunk([], []) && chunks == []
      ensures old(chunks) != [] ==> chunk == old(chunks)[0] && chunks == old(chunks)[1..]
    {
      if chunks == [] {
        return Chunk([], []);
      }
      chunk := chunks[0];
      chunks := chunks[1..];
    }
  }

  class LineReader {
    const zstream: ZStream
    var decoding: bool
    var outdata: seq<byte>
    var line: seq<byte>

    /** A finished decoder has nothing pending; a raw read is empty only at the end. */
    ghost predicate Valid()
      reads this, zstream
    {
      && (!decoding ==> outdata == [] && zstream.chunks == [])
      && (forall c :: c in zstream.chunks ==> c.raw != [])
    }

    /** The decompressed bytes that have not been read yet. */
    ghost function Pending(): seq<byte>
      reads this, zstream
    {
      outdata + Outputs(zstream.chunks)
    }

    /** The text that iteration has not turned into lines yet. */
    ghost function Unread(): seq<byte>
      reads this, zstream
    {
      line + Pending()
    }

    constructor (source: ZStream)
      requires forall c :: c in source.chunks ==> c.raw != []
      ensures Valid() && zstream == source && Unread() == Outputs(source.chunks)
    {
      zstream := source;
      decoding := true;
      outdata := [];
      line := [];
    }

    /** The next `n` bytes of the text, or all that is left of it. */
    method Read(n: nat) returns (data: seq<byte>)
      requires Valid()
      modifies this, zstream
      ensures Valid() && line == old(line)
      ensures data == Head(old(Pending()), n) && Pending() == old(Pending())[|data|..]
    {
      if !decoding {
        return [];
      }
      while |outdata| < n
        invariant decoding && Valid()
        invariant Pending() == old(Pending()) && line == old(line)
        decreases |zstream.chunks|, |outdata| < n
      {
        var chunk := zstream.Read();
        ghost var ahead := Outputs(zstream.chunks);
        Assoc(outdata, chunk.out, ahead);
        outdata := outdata + chunk.out;
        if chunk.raw == [] {
          decoding := false;
          break;
        }
      }
      data := Head(outdata, n);
      outdata := outdata[|data|..];
    }

    /** The next line, or nothing if no newline is left; what follows the last newline is kept back for good. */
    method Next() returns (result: Option<seq<byte>>)
      requires Valid()
      modifies this, zstream
      ensures Valid()
      ensures match SplitOnce(old(Unread()))
              case NoNewline => result == None && Unread() == old(Unread()) && Pending() == []
              case Split(first, rest) => result == Some(first) && Unread() == rest
    {
      var splittry := SplitOnce(line);
      while splittry == NoNewline
        invariant Valid() && Unread() == old(Unread())
        invariant splittry == SplitOnce(line)
        decreases |Pending()|
      {
        ghost var before := Pending();
        var moredata := Read(256);
        if moredata == [] {
          assert before == [];
          assert line + [] == line;
          return None;
        }
        assert moredata + before[|moredata|..] == before;
        Assoc(line, moredata, Pending());
        line := line + moredata;
        splittry := SplitOnce(line);
      }
      SplitExtends(line, Pending());
      line := splittry.rest;
      return Some(splittry.line);
    }

    /** The loop of a caller that iterates to the end. */
    method Collect() returns (lines: seq<seq<byte>>)
      requires Valid()
      modifies this, zstream
      ensures Valid()
      ensures lines == Lines(old(Unread())) && Unread() == Tail(old(Unread())) && Pending() == []
    {
      lines := [];
      while true
        invariant Valid()
        invariant lines + Lines(Unread()) == Lines(old(Unread()))
        invariant Tail(Unread()) == Tail(old(Unread()))
        decreases |Unread()|
      {
        var result := Next();
        if result == None {
          break;
        }
        Assoc(lines, [result.value], Lines(Unread()));
        lines := lines + [result.value];
      }
    }
  }

  /** Finding a newline in what has arrived is finding the first newline of the whole. */
  lemma SplitExtends(s: seq<byte>, more: seq<byte>)
    requires SplitOnce(s).Split?
    ensures SplitOnce(s + more) == Split(SplitOnce(s).line, SplitOnce(s).rest + more)
  {
    var at := FindNewline(s);
    assert s == s[..at] + [LF] + s[at + 1..];
    SplitAtFirst(s[..at], s[at + 1..] + more);
    assert s + more == s[..at] + [LF] + (s[at + 1..] + more);
  }
}
