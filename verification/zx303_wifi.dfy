/** The variable-length report of access points and cells that zx303 sends for positioning. */
module Zx303Wifi {
  import opened Bytes
  import opened HexText
  import opened Records
  import opened Zx303
  import opened Zx303Framing

  datatype AccessPoint = AccessPoint(mac: seq<byte>, signal: int)
  datatype Cell = Cell(locac: int, cellid: int, signal: int)
  datatype Report = Report(dtime: seq<byte>, aps: seq<AccessPoint>, mcc: int, mnc: int, cells: seq<Cell>)

  const NO_TIME: seq<byte> := [0, 0, 0, 0, 0, 0]

  // ----- text of a MAC address -----

  const COLON: byte := 0x3A

  function WithoutColons(s: seq<byte>): seq<byte> {
    if s == [] then [] else (if s[0] == COLON then [] else [s[0]]) + WithoutColons(s[1..])
  }

  /** Six bytes: the text's, cut off or filled up with zeros. */
  function MacBytes(mac: seq<byte>): Option<seq<byte>> {
    var b := FromHex(WithoutColons(mac));
    if b.None? then None else Some((b.value + NO_TIME)[..6])
  }

  /** Upper-case pairs joined by colons. */
  function FormatMac(b: seq<byte>): seq<byte> {
    if b == [] then []
    else if |b| == 1 then UpperPair(b[0])
    else UpperPair(b[0]) + [COLON] + FormatMac(b[1..])
  }

  lemma WithoutColonsColon(s: seq<byte>)
    ensures WithoutColons([COLON] + s) == WithoutColons(s)
  {
    assert ([COLON] + s)[1..] == s;
    assert [] + WithoutColons(s) == WithoutColons(s);
  }

  lemma WithoutColonsPair(b: byte, s: seq<byte>)
    ensures WithoutColons(UpperPair(b) + s) == UpperPair(b) + WithoutColons(s)
  {
    var t := UpperPair(b) + s;
    assert t[1..] == [UpperPair(b)[1]] + s;
    assert t[1..][1..] == s;
  }

  /** Removing the colons leaves the pairs. */
  lemma FormatMacPairs(b: seq<byte>)
    requires b != []
    ensures WithoutColons(FormatMac(b)) == UpperPair(b[0]) + WithoutColons(FormatMac(b[1..]))
  {
    var tail := FormatMac(b[1..]);
    if |b| == 1 {
      assert UpperPair(b[0]) + [] == UpperPair(b[0]);
      WithoutColonsPair(b[0], []);
    } else {
      Assoc(UpperPair(b[0]), [COLON], tail);
      WithoutColonsPair(b[0], [COLON] + tail);
      WithoutColonsColon(tail);
    }
  }

  lemma {:induction false} FormatMacReads(b: seq<byte>)
    ensures FromHex(WithoutColons(FormatMac(b))) == Some(b)
    decreases |b|
  {
    if b != [] {
      FormatMacReads(b[1..]);
      FormatMacPairs(b);
      FromHexPair(b[0], UpperPair(b[0]), WithoutColons(FormatMac(b[1..])));
      assert b == [b[0]] + b[1..];
    }
  }

  lemma MacRoundTrip(b: seq<byte>)
    requires |b| == 6
    ensures MacBytes(FormatMac(b)) == Some(b)
  {
    FormatMacReads(b);
    assert (b + NO_TIME)[..6] == b;
  }

  // ----- records -----

  predicate Fits8(x: int) {
    0 <= x < 0x100
  }

  predicate Fits16(x: int) {
    0 <= x < 0x1_0000
  }

  /** Network byte order. */
  function Be16(x: int): (b: seq<byte>)
    requires Fits16(x)
    ensures |b| == 2
  {
    [(x / 0x100) as byte, (x % 0x100) as byte]
  }

  function FromBe16(hi: byte, lo: byte): int {
    hi as int * 0x100 + lo as int
  }

  function EncodeAp(ap: AccessPoint): Option<seq<byte>> {
    var mac := MacBytes(ap.mac);
    if mac.Some? && Fits8(-ap.signal) then Some(mac.value + [(-ap.signal) as byte]) else None
  }

  function DecodeAp(b: seq<byte>): AccessPoint {
    if |b| == 7 then AccessPoint(FormatMac(b[..6]), -(b[6] as int)) else AccessPoint([], 0)
  }

  function EncodeCell(c: Cell): Option<seq<byte>> {
    if Fits16(c.locac) && Fits16(c.cellid) && Fits8(-c.signal)
    then Some(Be16(c.locac) + Be16(c.cellid) + [(-c.signal) as byte])
    else None
  }

  function DecodeCell(b: seq<byte>): Cell {
    if |b| == 5 then Cell(FromBe16(b[0], b[1]), FromBe16(b[2], b[3]), -(b[4] as int)) else Cell(0, 0, 0)
  }

  /** The access point as a decoder spells it. */
  function NormalAp(ap: AccessPoint): AccessPoint {
    var mac := MacBytes(ap.mac);
    if mac.Some? then ap.(mac := FormatMac(mac.value)) else ap
  }

  function SameCell(c: Cell): Cell {
    c
  }

  lemma ApCodec()
    ensures forall ap :: EncodeAp(ap).Some? ==>
              |EncodeAp(ap).value| == 7 && DecodeAp(EncodeAp(ap).value) == NormalAp(ap)
    ensures forall b :: |b| == 7 ==> EncodeAp(DecodeAp(b)) == Some(b)
  {
    forall ap | EncodeAp(ap).Some?
      ensures |EncodeAp(ap).value| == 7 && DecodeAp(EncodeAp(ap).value) == NormalAp(ap)
    {
      var b := EncodeAp(ap).value;
      assert b[..6] == MacBytes(ap.mac).value;
    }
    forall b: seq<byte> | |b| == 7 ensures EncodeAp(DecodeAp(b)) == Some(b) {
      MacRoundTrip(b[..6]);
      assert b == b[..6] + [b[6]];
    }
  }

  lemma Be16RoundTrip(x: int, hi: byte, lo: byte)
    ensures Fits16(x) ==> FromBe16(Be16(x)[0], Be16(x)[1]) == x
    ensures Fits16(FromBe16(hi, lo)) && Be16(FromBe16(hi, lo)) == [hi, lo]
  {
  }

  lemma CellCodec()
    ensures forall c :: EncodeCell(c).Some? ==>
              |EncodeCell(c).value| == 5 && DecodeCell(EncodeCell(c).value) == SameCell(c)
    ensures forall b :: |b| == 5 ==> EncodeCell(DecodeCell(b)) == Some(b)
  {
    forall c | EncodeCell(c).Some?
      ensures |EncodeCell(c).value| == 5 && DecodeCell(EncodeCell(c).value) == SameCell(c)
    {
      Be16RoundTrip(c.locac, 0, 0);
      Be16RoundTrip(c.cellid, 0, 0);
    }
    forall b: seq<byte> | |b| == 5 ensures EncodeCell(DecodeCell(b)) == Some(b) {
      Be16RoundTrip(0, b[0], b[1]);
      Be16RoundTrip(0, b[2], b[3]);
      assert b == [b[0], b[1]] + [b[2], b[3]] + [b[4]];
    }
  }

  // ----- the report -----

  function GsmHeader(count: int, mcc: int, mnc: int): Option<seq<byte>> {
    if Fits8(count) && Fits16(mcc) && Fits8(mnc) then Some([count as byte] + Be16(mcc) + [mnc as byte]) else None
  }

  /** The payload; the length byte of the packet is the number of access points. */
  function Encode(r: Report): Option<seq<byte>> {
    var aps, gsm, cells :=
      EncodeAll(EncodeAp, r.aps), GsmHeader(|r.cells|, r.mcc, r.mnc), EncodeAll(EncodeCell, r.cells);
    if aps.Some? && gsm.Some? && cells.Some? then Some(r.dtime + (aps.value + (gsm.value + cells.value))) else None
  }

  /** The fields that the formats can hold, and addresses that read as hexadecimal. */
  predicate InRange(r: Report) {
    && |r.cells| < 0x100 && Fits16(r.mcc) && Fits8(r.mnc)
    && (forall i :: 0 <= i < |r.aps| ==> MacBytes(r.aps[i].mac).Some? && -0x100 < r.aps[i].signal <= 0)
    && (forall i :: 0 <= i < |r.cells| ==>
          Fits16(r.cells[i].locac) && Fits16(r.cells[i].cellid) && -0x100 < r.cells[i].signal <= 0)
  }

  lemma EncodesExactlyInRange(r: Report)
    ensures Encode(r).Some? <==> InRange(r)
  {
    EncodesIfAll(EncodeAp, r.aps);
    EncodesIfAll(EncodeCell, r.cells);
    assert forall i :: 0 <= i < |r.aps| ==>
        (EncodeAp(r.aps[i]).Some? <==> MacBytes(r.aps[i].mac).Some? && -0x100 < r.aps[i].signal <= 0);
    assert forall i :: 0 <= i < |r.cells| ==>
        (EncodeCell(r.cells[i]).Some? <==>
         Fits16(r.cells[i].locac) && Fits16(r.cells[i].cellid) && -0x100 < r.cells[i].signal <= 0);
  }

  /** The whole packet: length, protocol, payload. */
  function Packed(proto: byte, r: Report): Option<seq<byte>> {
    var payload := Encode(r);
    if payload.Some? && Fits8(|r.aps|) then Some([|r.aps| as byte, proto] + payload.value) else None
  }

  /** How many cells a payload announces behind `length` access points. */
  function CellCount(length: nat, payload: seq<byte>): nat
    requires |payload| >= 6 + 7 * length + 4
  {
    payload[6 + 7 * length] as nat
  }

  /** The payload is long enough for everything it announces. */
  predicate Complete(length: nat, payload: seq<byte>) {
    && |payload| >= 6 + 7 * length + 4
    && |payload| >= 6 + 7 * length + 4 + 5 * CellCount(length, payload)
  }

  /** The date bytes are all zero, or read as a date (which dates there are is a parameter). */
  predicate Dated(dated: seq<byte> -> bool, dtime: seq<byte>) {
    dtime == NO_TIME || dated(dtime)
  }

  function Decoded(dated: seq<byte> -> bool, length: nat, payload: seq<byte>): Option<Report> {
    if !Complete(length, payload) || !Dated(dated, payload[..6]) then None
    else
      var at := 6 + 7 * length;
      var gsm := payload[at..];
      Some(Report(payload[..6], DecodeAll(DecodeAp, 7, payload[6..], length),
                  FromBe16(gsm[1], gsm[2]), gsm[3] as int,
                  DecodeAll(DecodeCell, 5, gsm[4..], gsm[0] as nat)))
  }

  /** Python's `s[lo:hi]`. */
  function Slice(s: seq<byte>, lo: nat, hi: nat): seq<byte>
    requires lo <= hi
  {
    if |s| <= lo then [] else if |s| <= hi then s[lo..] else s[lo..hi]
  }

  /** The loop over access points; running out of bytes makes the message undecodable. */
  method DecodeAps(length: nat, payload: seq<byte>) returns (aps: Option<seq<AccessPoint>>)
    requires |payload| >= 6
    ensures aps == if |payload[6..]| >= 7 * length then Some(DecodeAll(DecodeAp, 7, payload[6..], length)) else None
  {
    var read: seq<AccessPoint> := [];
    for i := 0 to length
      invariant |payload[6..]| >= 7 * i
      invariant read == DecodeAll(DecodeAp, 7, payload[6..], i)
    {
      var slice := Slice(payload, 6 + i * 7, 13 + i * 7);
      if |slice| < 7 {
        return None;
      }
      DecodeOneMore(DecodeAp, 7, payload[6..], i);
      assert |payload[6..]| >= 7 * i + 7;
      assert slice == payload[6 + i * 7..13 + i * 7] == payload[6..][7 * i..7 * i + 7];
      read := read + [AccessPoint(FormatMac(slice[..6]), -(slice[6] as int))];
    }
    return Some(read);
  }

  /** The loop over cells. */
  method DecodeCells(gsm: seq<byte>) returns (cells: Option<seq<Cell>>)
    requires |gsm| >= 4
    ensures cells == if |gsm[4..]| < 5 * gsm[0] as nat then None
                     else Some(DecodeAll(DecodeCell, 5, gsm[4..], gsm[0] as nat))
  {
    var ncells := gsm[0] as nat;
    var read: seq<Cell> := [];
    for i := 0 to ncells
      invariant |gsm[4..]| >= 5 * i
      invariant read == DecodeAll(DecodeCell, 5, gsm[4..], i)
    {
      var slice := Slice(gsm, 4 + i * 5, 9 + i * 5);
      if |slice| < 5 {
        return None;
      }
      DecodeOneMore(DecodeCell, 5, gsm[4..], i);
      assert slice == gsm[4..][5 * i..5 * i + 5];
      read := read + [Cell(FromBe16(slice[0], slice[1]), FromBe16(slice[2], slice[3]), -(slice[4] as int))];
    }
    return Some(read);
  }

  /** Every way to run out of bytes, or a date that is none, makes the message undecodable. */
  method Decode(dated: seq<byte> -> bool, length: nat, payload: seq<byte>) returns (r: Option<Report>)
    ensures r == Decoded(dated, length, payload)
  {
    var dtime := Slice(payload, 0, 6);
    if |payload| < 6 || (dtime != NO_TIME && !dated(dtime)) {
      return None;
    }
    assert dtime == payload[..6];
    var aps := DecodeAps(length, payload);
    var at := 6 + length * 7;
    if aps.None? || |payload| < at + 4 {
      return None;
    }
    var gsm := payload[at..];
    var cells := DecodeCells(gsm);
    if cells.None? {
      return None;
    }
    return Some(Report(dtime, aps.value, FromBe16(gsm[1], gsm[2]), gsm[3] as int, cells.value));
  }

  lemma ApsRead(aps: seq<AccessPoint>, suffix: seq<byte>)
    requires EncodeAll(EncodeAp, aps).Some?
    ensures var b := EncodeAll(EncodeAp, aps).value;
            |b| == 7 * |aps| && DecodeAll(DecodeAp, 7, b + suffix, |aps|) == MapAll(NormalAp, aps)
  {
    ApCodec();
    DecodesEncoded(EncodeAp, DecodeAp, NormalAp, 7, aps, suffix);
  }

  lemma CellsRead(cells: seq<Cell>, suffix: seq<byte>)
    requires EncodeAll(EncodeCell, cells).Some?
    ensures var b := EncodeAll(EncodeCell, cells).value;
            |b| == 5 * |cells| && DecodeAll(DecodeCell, 5, b + suffix, |cells|) == cells
  {
    CellCodec();
    DecodesEncoded(EncodeCell, DecodeCell, SameCell, 5, cells, suffix);
    assert MapAll(SameCell, cells) == cells;
  }

  lemma ApsWritten(p: seq<byte>, n: nat)
    requires |p| >= 7 * n
    ensures EncodeAll(EncodeAp, DecodeAll(DecodeAp, 7, p, n)) == Some(p[..7 * n])
  {
    ApCodec();
    EncodesDecoded(EncodeAp, DecodeAp, 7, p, n);
  }

  lemma CellsWritten(p: seq<byte>, n: nat)
    requires |p| >= 5 * n
    ensures EncodeAll(EncodeCell, DecodeAll(DecodeCell, 5, p, n)) == Some(p[..5 * n])
  {
    CellCodec();
    EncodesDecoded(EncodeCell, DecodeCell, 5, p, n);
  }

  /** Decoding an encoded report gives it back, with every address in the decoder's spelling. */
  lemma DecodeUndoesEncode(dated: seq<byte> -> bool, r: Report)
    requires Encode(r).Some? && |r.dtime| == 6 && Dated(dated, r.dtime)
    ensures Decoded(dated, |r.aps|, Encode(r).value) == Some(r.(aps := MapAll(NormalAp, r.aps)))
  {
    var aps, gsm, cells :=
      EncodeAll(EncodeAp, r.aps).value, GsmHeader(|r.cells|, r.mcc, r.mnc).value, EncodeAll(EncodeCell, r.cells).value;
    ApsRead(r.aps, gsm + cells);
    CellsRead(r.cells, []);
    GsmRead(|r.cells|, r.mcc, r.mnc);
    assert cells + [] == cells;
    DecodedParts(dated, r.dtime, aps, gsm, cells, |r.aps|, |r.cells|);
  }

  /** Decoding, by the parts of a payload that announces what it has. */
  lemma DecodedParts(dated: seq<byte> -> bool, dtime: seq<byte>, aps: seq<byte>, gsm: seq<byte>, cells: seq<byte>,
                     length: nat, count: nat)
    requires |dtime| == 6 && Dated(dated, dtime)
    requires |aps| == 7 * length && |gsm| == 4 && gsm[0] as nat == count && |cells| == 5 * count
    ensures Decoded(dated, length, dtime + (aps + (gsm + cells))) ==
            Some(Report(dtime, DecodeAll(DecodeAp, 7, aps + (gsm + cells), length),
                        FromBe16(gsm[1], gsm[2]), gsm[3] as int, DecodeAll(DecodeCell, 5, cells, count)))
  {
    var p := dtime + (aps + (gsm + cells));
    PayloadParts(dtime, aps, gsm, cells, p);
    var g := p[6 + 7 * length..];
    assert g[0] == gsm[0] && g[1] == gsm[1] && g[2] == gsm[2] && g[3] == gsm[3];
  }

  lemma PayloadParts(dtime: seq<byte>, aps: seq<byte>, gsm: seq<byte>, cells: seq<byte>, p: seq<byte>)
    requires |dtime| == 6 && |gsm| == 4 && p == dtime + (aps + (gsm + cells))
    ensures p[..6] == dtime && p[6..] == aps + (gsm + cells)
    ensures var at := 6 + |aps|;
            |p| == at + 4 + |cells| && p[at..] == gsm + cells && p[at..][4..] == cells && p[at] == gsm[0]
  {
    var at := 6 + |aps|;
    assert p[at..] == gsm + cells;
    assert p[at] == p[at..][0];
  }

  lemma GsmRead(count: int, mcc: int, mnc: int)
    requires GsmHeader(count, mcc, mnc).Some?
    ensures var gsm := GsmHeader(count, mcc, mnc).value;
            |gsm| == 4 && gsm[0] as int == count && FromBe16(gsm[1], gsm[2]) == mcc && gsm[3] as int == mnc
  {
    Be16RoundTrip(mcc, 0, 0);
  }

  /** The text of `n` bytes: upper-case digits, with a colon at every third place. */
  predicate MacText(mac: seq<byte>, n: nat) {
    && n > 0 && |mac| == 3 * n - 1
    && forall i :: 0 <= i < |mac| ==> if i % 3 == 2 then mac[i] == COLON else IsUpperHex(mac[i])
  }

  /** The spelling that survives: six upper-case pairs joined by colons. */
  predicate CanonicalMac(mac: seq<byte>) {
    MacText(mac, 6)
  }

  lemma {:induction false} FormatMacIsText(b: seq<byte>)
    requires b != []
    ensures MacText(FormatMac(b), |b|)
    decreases |b|
  {
    if |b| > 1 {
      FormatMacIsText(b[1..]);
      var tail, mac := FormatMac(b[1..]), FormatMac(b);
      forall i | 0 <= i < |mac| ensures if i % 3 == 2 then mac[i] == COLON else IsUpperHex(mac[i]) {
        if i >= 3 {
          assert mac[i] == tail[i - 3] && (i - 3) % 3 == i % 3;
        }
      }
    }
  }

  lemma {:induction false} TextIsFormatMac(mac: seq<byte>, n: nat) returns (b: seq<byte>)
    requires MacText(mac, n)
    ensures |b| == n && FormatMac(b) == mac
    decreases n
  {
    assert 0 % 3 == 0 && 1 % 3 == 1;
    var first := (16 * HexValue(mac[0]) + HexValue(mac[1])) as byte;
    assert UpperPair(first) == mac[..2];
    if n == 1 {
      return [first];
    }
    var rest := mac[3..];
    forall i | 0 <= i < |rest| ensures if i % 3 == 2 then rest[i] == COLON else IsUpperHex(rest[i]) {
      assert rest[i] == mac[i + 3] && (i + 3) % 3 == i % 3;
    }
    var more := TextIsFormatMac(rest, n - 1);
    b := [first] + more;
    assert b[1..] == more;
    assert mac[2] == COLON;
    assert mac == mac[..2] + [mac[2]] + rest;
  }

  /** It is exactly the spelling in which the decoder writes addresses. */
  lemma CanonicalExact(mac: seq<byte>)
    ensures CanonicalMac(mac) <==> exists b: seq<byte> :: |b| == 6 && FormatMac(b) == mac
  {
    if CanonicalMac(mac) {
      var b := TextIsFormatMac(mac, 6);
    }
    if b: seq<byte> :| |b| == 6 && FormatMac(b) == mac {
      FormatMacIsText(b);
    }
  }

  lemma RoundTripExact(dated: seq<byte> -> bool, r: Report)
    requires Encode(r).Some? && |r.dtime| == 6 && Dated(dated, r.dtime)
    ensures Decoded(dated, |r.aps|, Encode(r).value) == Some(r) <==> forall ap :: ap in r.aps ==> CanonicalMac(ap.mac)
  {
    DecodeUndoesEncode(dated, r);
    EncodedMacs(r.aps);
    var normal := MapAll(NormalAp, r.aps);
    if normal == r.aps {
      forall ap | ap in r.aps ensures CanonicalMac(ap.mac) {
        var i :| 0 <= i < |r.aps| && r.aps[i] == ap;
        assert FormatMac(MacBytes(ap.mac).value) == ap.mac;
        CanonicalExact(ap.mac);
      }
    } else {
      var i :| 0 <= i < |r.aps| && normal[i] != r.aps[i];
      assert r.aps[i] in r.aps;
      RespelledIsNotCanonical(r.aps[i]);
    }
  }

  lemma RespelledIsNotCanonical(ap: AccessPoint)
    requires MacBytes(ap.mac).Some? && NormalAp(ap) != ap
    ensures !CanonicalMac(ap.mac)
  {
    CanonicalExact(ap.mac);
    if b: seq<byte> :| |b| == 6 && FormatMac(b) == ap.mac {
      MacRoundTrip(b);
    }
  }

  lemma {:induction false} EncodedMacs(aps: seq<AccessPoint>)
    requires EncodeAll(EncodeAp, aps).Some?
    ensures forall ap :: ap in aps ==> MacBytes(ap.mac).Some?
    decreases |aps|
  {
    if aps != [] {
      EncodedMacs(aps[1..]);
    }
  }

  /** Re-encoding what was decoded gives back the bytes that were read, hence all of them if there are no more. */
  lemma EncodeUndoesDecode(dated: seq<byte> -> bool, length: nat, payload: seq<byte>)
    requires Decoded(dated, length, payload).Some?
    ensures var r := Decoded(dated, length, payload).value;
            var used := 6 + 7 * length + 4 + 5 * CellCount(length, payload);
            && |r.aps| == length
            && Encode(r) == Some(payload[..used])
            && (Encode(r) == Some(payload) <==> |payload| == used)
  {
    var r := Decoded(dated, length, payload).value;
    var at := 6 + 7 * length;
    var n := CellCount(length, payload);
    var used := at + 4 + 5 * n;
    var aps, gsm, cells := payload[6..][..7 * length], payload[at..][..4], payload[at..][4..][..5 * n];
    assert EncodeAll(EncodeAp, r.aps) == Some(aps) by {
      ApsWritten(payload[6..], length);
    }
    assert EncodeAll(EncodeCell, r.cells) == Some(cells) by {
      CellsWritten(payload[at..][4..], n);
    }
    assert GsmHeader(|r.cells|, r.mcc, r.mnc) == Some(gsm) by {
      GsmRoundTrip(gsm);
    }
    SlicesJoin(payload, at, n);
    assert payload[..used] == payload <==> |payload| == used;
  }

  lemma GsmRoundTrip(gsm: seq<byte>)
    requires |gsm| == 4
    ensures GsmHeader(gsm[0] as int, FromBe16(gsm[1], gsm[2]), gsm[3] as int) == Some(gsm)
  {
    Be16RoundTrip(0, gsm[1], gsm[2]);
    assert gsm == [gsm[0]] + [gsm[1], gsm[2]] + [gsm[3]];
  }

  lemma SlicesJoin(p: seq<byte>, at: nat, n: nat)
    requires 6 <= at && at + 4 + 5 * n <= |p|
    ensures p[..6] + (p[6..][..at - 6] + (p[at..][..4] + p[at..][4..][..5 * n])) == p[..at + 4 + 5 * n]
  {
    var used := at + 4 + 5 * n;
    assert p[6..][..at - 6] == p[6..at];
    assert p[at..][..4] + p[at..][4..][..5 * n] == p[at..used];
    assert p[6..at] + p[at..used] == p[6..used];
    assert p[..6] + p[6..used] == p[..used];
  }

  /**
    A report sent over a fresh connection arrives, and arrives as it was, exactly when no CR LF pair stands
    in the packet at or after the offset that its length byte, the number of access points, points to.
  */
  lemma ReportOverTheWire(dated: seq<byte> -> bool, proto: byte, r: Report)
    requires Packed(proto, r).Some? && |r.dtime| == 6 && Dated(dated, r.dtime)
    ensures var p := Packed(proto, r).value;
            && (Receive([], Enframe(p)) == Received([Packet(p)], []) <==>
                forall i :: |r.aps| - 2 <= i ==> !PairAt(p, CR, LF, i))
            && Decoded(dated, p[0] as nat, p[2..]) == Some(r.(aps := MapAll(NormalAp, r.aps)))
  {
    var p, payload := Packed(proto, r).value, Encode(r).value;
    DecodeUndoesEncode(dated, r);
    assert p[2..] == payload;
    ApsRead(r.aps, []);
    CellsRead(r.cells, []);
    PacketTransparency(p);
  }
}
