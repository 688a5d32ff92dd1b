/** Voice data: bytes with a meaning in the framing travel with a `}` in front of them. */
module BeesureVoice {
  import opened Bytes

  /** Python's `s.replace(old, new)`: matches are taken from the left and do not overlap. */
  function Replace(s: seq<byte>, old_: seq<byte>, new_: seq<byte>): seq<byte>
    requires old_ != []
  {
    if |s| < |old_| then s
    else if s[..|old_|] == old_ then new_ + Replace(s[|old_|..], old_, new_)
    else [s[0]] + Replace(s[1..], old_, new_)
  }

  /** The decoder as it stands: five passes over the whole text, the one for `}` itself last. */
  function Decode(s: seq<byte>): seq<byte> {
    var s1 := Replace(s, [BRACE, STAR], [STAR]);
    var s2 := Replace(s1, [BRACE, COMMA], [COMMA]);
    var s3 := Replace(s2, [BRACE, OPEN], [OPEN]);
    var s4 := Replace(s3, [BRACE, SHUT], [SHUT]);
    Replace(s4, [BRACE, BRACE], [BRACE])
  }

  /** One pass from the left: a `}` before a byte of `specials` is dropped and that byte is taken as it is. */
  function Unescape(s: seq<byte>, specials: set<byte>): seq<byte> {
    if s == [] then []
    else if s[0] == BRACE && |s| > 1 && s[1] in specials then [s[1]] + Unescape(s[2..], specials)
    else [s[0]] + Unescape(s[1..], specials)
  }

  const SPECIALS: set<byte> := {STAR, COMMA, OPEN, SHUT, BRACE}

  function Escape(data: seq<byte>): seq<byte> {
    if data == [] then []
    else (if data[0] in SPECIALS then [BRACE, data[0]] else [data[0]]) + Escape(data[1..])
  }

  /** A replacing pass only looks at the first two bytes to decide what to do next. */
  lemma ReplaceStep(s: seq<byte>, c: byte)
    requires s != []
    ensures Replace(s, [BRACE, c], [c]) ==
            if |s| > 1 && s[0] == BRACE && s[1] == c then [c] + Replace(s[2..], [BRACE, c], [c])
            else [s[0]] + Replace(s[1..], [BRACE, c], [c])
  {
    if |s| > 1 {
      assert s[..2] == [s[0], s[1]];
    } else {
      assert s == [s[0]] + s[1..];
    }
  }

  lemma UnescapeCons(c: byte, s: seq<byte>, specials: set<byte>)
    requires c != BRACE
    ensures Unescape([c] + s, specials) == [c] + Unescape(s, specials)
  {
  }

  lemma ReplaceCons(x: byte, s: seq<byte>, c: byte)
    requires x != BRACE || s == [] || s[0] != c
    ensures Replace([x] + s, [BRACE, c], [c]) == [x] + Replace(s, [BRACE, c], [c])
  {
    ReplaceStep([x] + s, c);
    assert ([x] + s)[1..] == s;
  }

  /** A further pass for `c` turns the simultaneous unescaping of `done` into that of `done` and `c`. */
  lemma {:induction false} AddPass(s: seq<byte>, done: set<byte>, c: byte)
    requires BRACE !in done && c !in done && c != BRACE
    ensures Replace(Unescape(s, done), [BRACE, c], [c]) == Unescape(s, done + {c})
    decreases |s|
  {
    if s != [] {
      var u := Unescape(s, done);
      if s[0] == BRACE && |s| > 1 && s[1] in done {
        AddPass(s[2..], done, c);
        ReplaceCons(s[1], Unescape(s[2..], done), c);
      } else if s[0] == BRACE && |s| > 1 && s[1] == c {
        AddPass(s[2..], done, c);
        assert s[1..] == [c] + s[2..];
        UnescapeCons(c, s[2..], done);
        ReplaceStep(u, c);
        assert u[2..] == Unescape(s[2..], done);
      } else {
        AddPass(s[1..], done, c);
        var rest := Unescape(s[1..], done);
        assert s[0] == BRACE ==> rest == [] || rest[0] != c;
        ReplaceCons(s[0], rest, c);
      }
    }
  }

  /** The last pass, for pairs of `}`, comes after all others, and still completes the same single pass. */
  lemma {:induction false} LastPass(s: seq<byte>, done: set<byte>)
    requires BRACE !in done
    ensures Replace(Unescape(s, done), [BRACE, BRACE], [BRACE]) == Unescape(s, done + {BRACE})
    decreases |s|
  {
    if s != [] {
      var u := Unescape(s, done);
      if s[0] == BRACE && |s| > 1 && s[1] in done {
        LastPass(s[2..], done);
        ReplaceCons(s[1], Unescape(s[2..], done), BRACE);
      } else if s[0] == BRACE && |s| > 1 && s[1] == BRACE {
        PairOfBraces(s, done);
      } else {
        LastPass(s[1..], done);
        ReplaceCons(s[0], Unescape(s[1..], done), BRACE);
      }
    }
  }

  /** The one case where the order matters: `}}` followed by a byte that an earlier pass has already bared. */
  lemma PairOfBraces(s: seq<byte>, done: set<byte>)
    requires BRACE !in done && |s| > 1 && s[0] == BRACE && s[1] == BRACE
    ensures Replace(Unescape(s, done), [BRACE, BRACE], [BRACE]) == Unescape(s, done + {BRACE})
    decreases |s|, 0
  {
    var u := Unescape(s, done);
    var t := s[1..];
    assert u == [BRACE] + Unescape(t, done);
    if |s| > 2 && s[2] in done {
      assert t[0] == BRACE && t[1] == s[2] && t[2..] == s[3..];
      LastPass(s[3..], done);
      var rest := Unescape(s[3..], done);
      assert u == [BRACE] + ([s[2]] + rest);
      ReplaceCons(BRACE, [s[2]] + rest, BRACE);
      ReplaceCons(s[2], rest, BRACE);
      assert s[2..] == [s[2]] + s[3..];
      UnescapeCons(s[2], s[3..], done + {BRACE});
    } else {
      assert t[1..] == s[2..];
      LastPass(s[2..], done);
      var rest := Unescape(s[2..], done);
      assert Unescape(t, done) == [BRACE] + rest;
      assert u == [BRACE] + ([BRACE] + rest);
      ReplaceStep(u, BRACE);
      assert u[2..] == rest;
    }
  }

  lemma {:induction false} NothingToUnescape(s: seq<byte>)
    ensures Unescape(s, {}) == s
  {
    if s != [] {
      NothingToUnescape(s[1..]);
    }
  }

  /** On every byte string the five passes come to one left-to-right pass. */
  lemma DecodeIsOnePass(s: seq<byte>)
    ensures Decode(s) == Unescape(s, SPECIALS)
  {
    NothingToUnescape(s);
    AddPass(s, {}, STAR);
    AddPass(s, {} + {STAR}, COMMA);
    AddPass(s, {} + {STAR} + {COMMA}, OPEN);
    AddPass(s, {} + {STAR} + {COMMA} + {OPEN}, SHUT);
    LastPass(s, {} + {STAR} + {COMMA} + {OPEN} + {SHUT});
    assert {} + {STAR} + {COMMA} + {OPEN} + {SHUT} + {BRACE} == SPECIALS;
  }

  /** Therefore decoding undoes escaping. */
  lemma {:induction false} DecodeUndoesEscape(data: seq<byte>)
    ensures Decode(Escape(data)) == data
    decreases |data|
  {
    var s := Escape(data);
    DecodeIsOnePass(s);
    if data != [] {
      var tail := Escape(data[1..]);
      DecodeUndoesEscape(data[1..]);
      DecodeIsOnePass(tail);
      if data[0] in SPECIALS {
        assert s[0] == BRACE && s[1] == data[0] && s[2..] == tail;
      } else {
        assert s[0] == data[0] && s[1..] == tail;
      }
      assert data == [data[0]] + data[1..];
    }
  }

  /** No special byte stands without a `}` of its own in front. */
  predicate ProperlyEscaped(s: seq<byte>) {
    s == [] ||
    (if s[0] == BRACE then |s| > 1 && s[1] in SPECIALS && ProperlyEscaped(s[2..])
     else s[0] !in SPECIALS && ProperlyEscaped(s[1..]))
  }

  /** Escaping undoes decoding exactly on properly escaped text. */
  lemma {:induction false} EscapeUndoesDecode(s: seq<byte>)
    ensures Escape(Decode(s)) == s <==> ProperlyEscaped(s)
    decreases |s|
  {
    DecodeIsOnePass(s);
    if s != [] {
      var d := Unescape(s, SPECIALS);
      if s[0] == BRACE && |s| > 1 && s[1] in SPECIALS {
        EscapeUndoesDecode(s[2..]);
        DecodeIsOnePass(s[2..]);
        assert d[1..] == Unescape(s[2..], SPECIALS);
        assert s == [BRACE, s[1]] + s[2..];
      } else {
        EscapeUndoesDecode(s[1..]);
        DecodeIsOnePass(s[1..]);
        assert d[0] == s[0] && d[1..] == Unescape(s[1..], SPECIALS);
        assert s == [s[0]] + s[1..];
      }
    }
  }

  /** The decoder from the left, in byte values: `}` before `*`, `,`, `[`, `]` or `}` is dropped, nothing else is. */
  lemma DecodeSpelledOut(s: seq<byte>)
    requires s != []
    ensures Decode(s) ==
            if |s| > 1 && s[0] == 0x7D && (s[1] == 0x2A || s[1] == 0x2C || s[1] == 0x5B || s[1] == 0x5D || s[1] == 0x7D)
            then [s[1]] + Decode(s[2..])
            else [s[0]] + Decode(s[1..])
  {
    DecodeIsOnePass(s);
    DecodeIsOnePass(s[1..]);
    if |s| > 1 {
      DecodeIsOnePass(s[2..]);
    }
  }

  /** The escaper puts `}` before exactly these five. */
  lemma EscapeSpelledOut(c: byte, data: seq<byte>)
    ensures Escape([c] + data) ==
            (if c == 0x2A || c == 0x2C || c == 0x5B || c == 0x5D || c == 0x7D then [0x7D, c] else [c]) + Escape(data)
  {
    assert ([c] + data)[1..] == data;
  }
}
