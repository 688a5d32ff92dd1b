/** Hexadecimal text. Text is ASCII throughout and is modelled by its bytes. */
module HexText {
  import opened Bytes

  predicate IsDigit(c: byte) {
    0x30 <= c <= 0x39
  }

  predicate IsHex(c: byte) {
    IsDigit(c) || 0x41 <= c <= 0x46 || 0x61 <= c <= 0x66
  }

  function HexValue(c: byte): (v: nat)
    requires IsHex(c)
    ensures v < 16
  {
    if IsDigit(c) then (c - 0x30) as int
    else if c <= 0x46 then (c - 0x41) as int + 10
    else (c - 0x61) as int + 10
  }

  function UpperDigit(v: nat): (c: byte)
    requires v < 16
    ensures IsHex(c) && HexValue(c) == v
  {
    if v < 10 then 0x30 + v as byte else 0x41 + (v - 10) as byte
  }

  function LowerDigit(v: nat): (c: byte)
    requires v < 16
    ensures IsHex(c) && HexValue(c) == v
  {
    if v < 10 then 0x30 + v as byte else 0x61 + (v - 10) as byte
  }

  predicate IsSpace(c: byte) {
    c == 0x20 || 0x09 <= c <= 0x0D
  }

  /** Python's `bytes.fromhex`: pairs of digits of either case, with white space allowed between pairs. */
  function FromHex(s: seq<byte>): Option<seq<byte>> {
    if s == [] then Some([])
    else if IsSpace(s[0]) then FromHex(s[1..])
    else if |s| == 1 || !IsHex(s[0]) || !IsHex(s[1]) then None
    else
      var more := FromHex(s[2..]);
      if more.None? then None else Some([(16 * HexValue(s[0]) + HexValue(s[1])) as byte] + more.value)
  }

  function LowerPair(b: byte): seq<byte> {
    [LowerDigit(b as nat / 16), LowerDigit(b as nat % 16)]
  }

  function UpperPair(b: byte): seq<byte> {
    [UpperDigit(b as nat / 16), UpperDigit(b as nat % 16)]
  }

  /** Python's `b.hex()`. */
  function ToHex(b: seq<byte>): (s: seq<byte>)
    ensures |s| == 2 * |b|
  {
    if b == [] then [] else LowerPair(b[0]) + ToHex(b[1..])
  }

  /** A pair of digits in front of readable text is read as its byte. */
  lemma FromHexPair(b: byte, pair: seq<byte>, s: seq<byte>)
    requires pair == LowerPair(b) || pair == UpperPair(b)
    requires FromHex(s).Some?
    ensures FromHex(pair + s) == Some([b] + FromHex(s).value)
  {
    var t := pair + s;
    assert t[0] == pair[0] && t[1] == pair[1];
    assert t[2..] == s;
  }

  lemma {:induction false} ToHexReads(b: seq<byte>)
    ensures FromHex(ToHex(b)) == Some(b)
    decreases |b|
  {
    if b != [] {
      ToHexReads(b[1..]);
      FromHexPair(b[0], LowerPair(b[0]), ToHex(b[1..]));
      assert b == [b[0]] + b[1..];
    }
  }

  predicate IsLowerHex(c: byte) {
    IsDigit(c) || 0x61 <= c <= 0x66
  }

  predicate IsUpperHex(c: byte) {
    IsDigit(c) || 0x41 <= c <= 0x46
  }

  /** Pairs of lower-case digits, nothing else. */
  predicate LowerText(s: seq<byte>, n: nat) {
    |s| == 2 * n && forall i :: 0 <= i < |s| ==> IsLowerHex(s[i])
  }

  lemma {:induction false} ToHexIsLower(b: seq<byte>)
    ensures LowerText(ToHex(b), |b|)
    decreases |b|
  {
    if b != [] {
      ToHexIsLower(b[1..]);
    }
  }

  /** Every such text is the text of some bytes. */
  lemma {:induction false} LowerIsToHex(s: seq<byte>, n: nat) returns (b: seq<byte>)
    requires LowerText(s, n)
    ensures |b| == n && ToHex(b) == s
    decreases n
  {
    if n == 0 {
      return [];
    }
    var more := LowerIsToHex(s[2..], n - 1);
    var first := PairOfDigits(s[0], s[1]);
    b := [first] + more;
    assert b[1..] == more;
    assert s == [s[0], s[1]] + s[2..];
  }

  lemma PairOfDigits(hi: byte, lo: byte) returns (b: byte)
    requires IsLowerHex(hi) && IsLowerHex(lo)
    ensures LowerPair(b) == [hi, lo]
  {
    b := (16 * HexValue(hi) + HexValue(lo)) as byte;
  }

  /** Hexadecimal digits are those, of either case, and stand for these values. */
  lemma DigitsSpelledOut(c: byte)
    ensures IsHex(c) <==> 0x30 <= c <= 0x39 || 0x41 <= c <= 0x46 || 0x61 <= c <= 0x66
    ensures 0x30 <= c <= 0x39 ==> HexValue(c) == c as int - 0x30
    ensures 0x41 <= c <= 0x46 ==> HexValue(c) == c as int - 0x41 + 10
    ensures 0x61 <= c <= 0x66 ==> HexValue(c) == c as int - 0x61 + 10
  {
  }

  /** Digits alone are read if and only if they are even in number, two to a byte. */
  lemma {:induction false} FromHexOfDigits(s: seq<byte>)
    requires forall c :: c in s ==> IsHex(c)
    ensures FromHex(s).Some? <==> |s| % 2 == 0
    ensures |s| % 2 == 0 ==>
              && |FromHex(s).value| == |s| / 2
              && forall k :: 0 <= k < |s| / 2 ==>
                   FromHex(s).value[k] as int == 16 * HexValue(s[2 * k]) + HexValue(s[2 * k + 1])
    decreases |s|
  {
    if s != [] {
      assert s[0] in s && IsHex(s[0]);
    }
    if |s| >= 2 {
      var t := s[2..];
      assert s[1] in s && IsHex(s[1]);
      FromHexOfDigits(t);
      assert |t| % 2 == |s| % 2;
      if |s| % 2 == 0 {
        forall k | 1 <= k < |s| / 2
          ensures FromHex(s).value[k] as int == 16 * HexValue(s[2 * k]) + HexValue(s[2 * k + 1])
        {
          assert s[2 * k] == t[2 * (k - 1)] && s[2 * k + 1] == t[2 * (k - 1) + 1];
        }
      }
    }
  }

  /** White space between bytes changes nothing, and nothing but digits and white space is read. */
  lemma {:induction false} FromHexSpaces(s: seq<byte>, c: byte)
    requires c == 0x20 || 0x09 <= c <= 0x0D
    ensures FromHex([c] + s) == FromHex(s)
    ensures FromHex(s).Some? ==> forall x :: x in s ==> IsHex(x) || x == 0x20 || 0x09 <= x <= 0x0D
    decreases |s|
  {
    assert ([c] + s)[1..] == s;
    if s != [] && FromHex(s).Some? {
      FromHexSpaces(if IsSpace(s[0]) then s[1..] else s[2..], c);
    }
  }
}
