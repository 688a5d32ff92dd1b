/** Lists of fixed-size records laid end to end. */
module Records {
  import opened Bytes

  function EncodeAll<T>(enc: T -> Option<seq<byte>>, xs: seq<T>): Option<seq<byte>> {
    if xs == [] then Some([])
    else
      var first, more := enc(xs[0]), EncodeAll(enc, xs[1..]);
      if first.Some? && more.Some? then Some(first.value + more.value) else None
  }

  function DecodeAll<T>(dec: seq<byte> -> T, k: nat, p: seq<byte>, n: nat): (xs: seq<T>)
    requires |p| >= k * n
    ensures |xs| == n
    decreases n
  {
    if n == 0 then []
    else
      assert k * n == k + k * (n - 1);
      [dec(p[..k])] + DecodeAll(dec, k, p[k..], n - 1)
  }

  function MapAll<T>(f: T -> T, xs: seq<T>): (ys: seq<T>)
    ensures |ys| == |xs|
    ensures forall i :: 0 <= i < |xs| ==> ys[i] == f(xs[i])
  {
    if xs == [] then [] else [f(xs[0])] + MapAll(f, xs[1..])
  }

  lemma {:induction false} EncodesIfAll<T>(enc: T -> Option<seq<byte>>, xs: seq<T>)
    ensures EncodeAll(enc, xs).Some? <==> forall i :: 0 <= i < |xs| ==> enc(xs[i]).Some?
    decreases |xs|
  {
    if xs != [] {
      EncodesIfAll(enc, xs[1..]);
      if EncodeAll(enc, xs).Some? {
        assert forall i :: 1 <= i < |xs| ==> xs[i] == xs[1..][i - 1];
      }
    }
  }

  /** Decoding what was encoded gives every record back, in the form in which it is read. */
  lemma {:induction false} DecodesEncoded<T(!new)>(enc: T -> Option<seq<byte>>, dec: seq<byte> -> T, norm: T -> T,
                                                   k: nat, xs: seq<T>, suffix: seq<byte>)
    requires forall x :: enc(x).Some? ==> |enc(x).value| == k && dec(enc(x).value) == norm(x)
    requires EncodeAll(enc, xs).Some?
    ensures |EncodeAll(enc, xs).value| == k * |xs|
    ensures DecodeAll(dec, k, EncodeAll(enc, xs).value + suffix, |xs|) == MapAll(norm, xs)
    decreases |xs|
  {
    if xs != [] {
      var first, more := enc(xs[0]).value, EncodeAll(enc, xs[1..]).value;
      DecodesEncoded(enc, dec, norm, k, xs[1..], suffix);
      assert k * |xs| == k + k * (|xs| - 1);
      Assoc(first, more, suffix);
      var p := first + (more + suffix);
      assert p[..k] == first && p[k..] == more + suffix;
    }
  }

  /** Encoding what was decoded gives the bytes back. */
  lemma {:induction false} EncodesDecoded<T>(enc: T -> Option<seq<byte>>, dec: seq<byte> -> T,
                                             k: nat, p: seq<byte>, n: nat)
    requires forall b :: |b| == k ==> enc(dec(b)) == Some(b)
    requires |p| >= k * n
    ensures EncodeAll(enc, DecodeAll(dec, k, p, n)) == Some(p[..k * n])
    decreases n
  {
    if n > 0 {
      OneMore(k, n);
      EncodesDecoded(enc, dec, k, p[k..], n - 1);
      assert |p[..k]| == k;
      PrefixInTwo(p, k, k * (n - 1));
    }
  }

  lemma PrefixInTwo(p: seq<byte>, k: nat, m: nat)
    requires k + m <= |p|
    ensures p[..k + m] == p[..k] + p[k..][..m]
  {
  }

  lemma SliceOfRest(p: seq<byte>, k: nat, lo: nat, hi: nat)
    requires k <= |p| && lo <= hi <= |p| - k
    ensures p[k..][lo..hi] == p[k + lo..k + hi]
  {
  }

  lemma OneMore(k: nat, n: nat)
    requires n > 0
    ensures k * n == k + k * (n - 1) && k <= k * n
  {
  }

  /** One more record is read behind those already read. */
  lemma {:induction false} DecodeOneMore<T>(dec: seq<byte> -> T, k: nat, p: seq<byte>, n: nat)
    requires |p| >= k * n + k
    ensures k * (n + 1) == k * n + k
    ensures DecodeAll(dec, k, p, n + 1) == DecodeAll(dec, k, p, n) + [dec(p[k * n..k * n + k])]
    decreases n
  {
    OneMore(k, n + 1);
    if n > 0 {
      OneMore(k, n);
      DecodeOneMore(dec, k, p[k..], n - 1);
      SliceOfRest(p, k, k * (n - 1), k * (n - 1) + k);
    }
  }

  /** Record `i` is read from its own bytes. */
  lemma {:induction false} DecodeAllAt<T>(dec: seq<byte> -> T, k: nat, p: seq<byte>, n: nat, i: nat)
    requires i < n && |p| >= k * n
    ensures k * i + k <= |p| && DecodeAll(dec, k, p, n)[i] == dec(p[k * i..k * i + k])
    decreases i
  {
    OneMore(k, n);
    if i > 0 {
      OneMore(k, i);
      DecodeAllAt(dec, k, p[k..], n - 1, i - 1);
      SliceOfRest(p, k, k * (i - 1), k * (i - 1) + k);
    } else {
      assert k * 0 == 0;
    }
  }
}
