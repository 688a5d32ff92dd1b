/** Byte strings and the few operations on them that the rest of the model shares. */
module Bytes {

  newtype byte = x: int | 0 <= x < 0x100

  datatype Option<+T> = None | Some(value: T)

  const CR: byte := 0x0D
  const LF: byte := 0x0A
  const STAR: byte := 0x2A
  const COMMA: byte := 0x2C
  const OPEN: byte := 0x5B
  const SHUT: byte := 0x5D
  const SMALL_X: byte := 0x78
  const BRACE: byte := 0x7D

  /** The pair `a b` stands at offset `i` of `s`. */
  predicate PairAt(s: seq<byte>, a: byte, b: byte, i: int) {
    0 <= i && i + 1 < |s| && s[i] == a && s[i + 1] == b
  }

  /** The offset of the first pair `a b` at or after `from`, or -1: Python's `s.find(ab, from)`. */
  function FindPair(s: seq<byte>, a: byte, b: byte, from: nat): (at: int)
    ensures at == -1 || (from <= at && PairAt(s, a, b, at))
    ensures forall i :: from <= i && (at == -1 || i < at) ==> !PairAt(s, a, b, i)
    decreases |s| - from
  {
    if from + 1 >= |s| then -1
    else if PairAt(s, a, b, from) then from
    else FindPair(s, a, b, from + 1)
  }

  /** The first `n` bytes, or all of them: Python's `s[:n]`. */
  function Head(s: seq<byte>, n: nat): seq<byte> {
    if |s| <= n then s else s[..n]
  }

  lemma Assoc<T>(a: seq<T>, b: seq<T>, c: seq<T>)
    ensures (a + b) + c == a + (b + c)
  {
  }

  function Flatten(parts: seq<seq<byte>>): seq<byte> {
    if parts == [] then [] else parts[0] + Flatten(parts[1..])
  }

  lemma FlattenCons(s: seq<byte>, parts: seq<seq<byte>>)
    ensures Flatten([s] + parts) == s + Flatten(parts)
  {
    assert ([s] + parts)[1..] == parts;
  }

  lemma {:induction false} FlattenAppend(a: seq<seq<byte>>, b: seq<seq<byte>>)
    ensures Flatten(a + b) == Flatten(a) + Flatten(b)
  {
    if a == [] {
      assert a + b == b;
    } else {
      var tail := a[1..];
      FlattenAppend(tail, b);
      assert a + b == [a[0]] + (tail + b);
      FlattenCons(a[0], tail + b);
      Assoc(a[0], Flatten(tail), Flatten(b));
    }
  }
}
