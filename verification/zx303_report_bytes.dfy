/** The report of access points and cells byte for byte, spelled out without the functions that read and write it. */
module Zx303ReportBytes {
  import opened Bytes
  import opened HexText
  import opened Records
  import opened Zx303Wifi

  // ----- addresses -----

  /** The character for a hexadecimal digit, as Python's `02X` writes it. */
  function UpperChar(v: int): int {
    if v < 10 then 0x30 + v else 0x41 + v - 10
  }

  /** Byte `j` of an address in its text: two digits, and a colon unless it is the last. */
  lemma {:induction false} MacSpelledOut(b: seq<byte>, j: nat)
    requires j < |b|
    ensures var mac := FormatMac(b);
            && |mac| == 3 * |b| - 1
            && mac[3 * j] as int == UpperChar(b[j] as int / 16) && mac[3 * j + 1] as int == UpperChar(b[j] as int % 16)
            && (j + 1 < |b| ==> mac[3 * j + 2] == 0x3A)
    decreases |b|
  {
    if |b| > 1 {
      var mac, tail, i := FormatMac(b), FormatMac(b[1..]), if j > 0 then j - 1 else 0;
      MacSpelledOut(b[1..], i);
      assert mac == UpperPair(b[0]) + [COLON] + tail;
      if j > 0 {
        assert 3 * j == 3 + 3 * i && b[j] == b[1..][i];
        assert mac[3 + 3 * i] == tail[3 * i] && mac[3 + 3 * i + 1] == tail[3 * i + 1];
        assert j + 1 < |b| ==> mac[3 + 3 * i + 2] == tail[3 * i + 2];
      }
    }
  }

  /** What is written for an address: the first six bytes of its text without colons, or zeros where there are none. */
  lemma MacBytesSpelledOut(mac: seq<byte>)
    ensures MacBytes(mac).Some? <==> FromHex(WithoutColons(mac)).Some?
    ensures MacBytes(mac).Some? ==>
              var b := FromHex(WithoutColons(mac)).value;
              && |MacBytes(mac).value| == 6
              && forall k :: 0 <= k < 6 ==> MacBytes(mac).value[k] == if k < |b| then b[k] else 0
  {
  }

  lemma WithoutColonsSpelledOut(c: byte, s: seq<byte>)
    ensures WithoutColons([]) == []
    ensures WithoutColons([c] + s) == (if c == 0x3A then [] else [c]) + WithoutColons(s)
  {
    assert ([c] + s)[1..] == s;
  }

  // ----- the payload -----

  /** When a payload can be read: six bytes of date, seven for each access point, four and five for each cell. */
  lemma ReadableSpelledOut(dated: seq<byte> -> bool, length: nat, payload: seq<byte>)
    ensures Decoded(dated, length, payload).Some? <==>
            var at := 6 + 7 * length;
            && |payload| >= at + 4 && |payload| >= at + 4 + 5 * payload[at] as int
            && ((forall k :: 0 <= k < 6 ==> payload[k] == 0) || dated(payload[..6]))
  {
    if |payload| >= 6 {
      assert payload[..6] == NO_TIME <==> forall k :: 0 <= k < 6 ==> payload[k] == 0 by {
        assert forall k :: 0 <= k < 6 ==> payload[..6][k] == payload[k];
      }
    }
  }

  /** What is read as one access point. */
  predicate ApAt(ap: AccessPoint, p: seq<byte>, at: nat) {
    && at + 7 <= |p|
    && ap.signal == -(p[at + 6] as int)
    && |ap.mac| == 17
    && (forall j :: 0 <= j < 6 ==>
          && ap.mac[3 * j] as int == UpperChar(p[at + j] as int / 16)
          && ap.mac[3 * j + 1] as int == UpperChar(p[at + j] as int % 16))
    && ap.mac[2] == 0x3A && ap.mac[5] == 0x3A && ap.mac[8] == 0x3A && ap.mac[11] == 0x3A && ap.mac[14] == 0x3A
  }

  /** What is read as one cell: two numbers of two bytes, high byte first, and the signal. */
  predicate CellAt(c: Cell, p: seq<byte>, at: nat) {
    && at + 5 <= |p|
    && c.locac == 256 * p[at] as int + p[at + 1] as int
    && c.cellid == 256 * p[at + 2] as int + p[at + 3] as int
    && c.signal == -(p[at + 4] as int)
  }

  lemma ApSpelledOut(b: seq<byte>)
    requires |b| == 7
    ensures ApAt(DecodeAp(b), b, 0)
  {
    var mac := FormatMac(b[..6]);
    MacSpelledOut(b[..6], 0);
    forall j | 0 <= j < 6
      ensures mac[3 * j] as int == UpperChar(b[j] as int / 16)
      ensures mac[3 * j + 1] as int == UpperChar(b[j] as int % 16)
    {
      MacSpelledOut(b[..6], j);
    }
    MacSpelledOut(b[..6], 1);
    MacSpelledOut(b[..6], 2);
    MacSpelledOut(b[..6], 3);
    MacSpelledOut(b[..6], 4);
  }

  lemma ApMoves(ap: AccessPoint, p: seq<byte>, at: nat)
    requires at + 7 <= |p| && ApAt(ap, p[at..at + 7], 0)
    ensures ApAt(ap, p, at)
  {
    var b := p[at..at + 7];
    forall j | 0 <= j < 6
      ensures ap.mac[3 * j] as int == UpperChar(p[at + j] as int / 16)
      ensures ap.mac[3 * j + 1] as int == UpperChar(p[at + j] as int % 16)
    {
      assert b[0 + j] == p[at + j];
    }
    assert b[6] == p[at + 6];
  }

  lemma CellMoves(c: Cell, p: seq<byte>, at: nat)
    requires at + 5 <= |p| && c == DecodeCell(p[at..at + 5])
    ensures CellAt(c, p, at)
  {
  }

  /** Every field of a report stands where the layout says. */
  lemma ReportSpelledOut(dated: seq<byte> -> bool, length: nat, payload: seq<byte>)
    requires Decoded(dated, length, payload).Some?
    ensures var r, at := Decoded(dated, length, payload).value, 6 + 7 * length;
            && |payload| >= at + 4
            && r.dtime == payload[..6] && |r.aps| == length && |r.cells| == payload[at] as int
            && r.mcc == 256 * payload[at + 1] as int + payload[at + 2] as int && r.mnc == payload[at + 3] as int
            && (forall i :: 0 <= i < |r.aps| ==> ApAt(r.aps[i], payload, 6 + 7 * i))
            && (forall i :: 0 <= i < |r.cells| ==> CellAt(r.cells[i], payload, at + 4 + 5 * i))
  {
    var r, at := Decoded(dated, length, payload).value, 6 + 7 * length;
    forall i | 0 <= i < |r.aps| ensures ApAt(r.aps[i], payload, 6 + 7 * i) {
      ApInReport(payload, length, i);
    }
    forall i | 0 <= i < |r.cells| ensures CellAt(r.cells[i], payload, at + 4 + 5 * i) {
      CellInReport(payload, at, payload[at] as nat, i);
    }
  }

  lemma ApInReport(p: seq<byte>, length: nat, i: nat)
    requires |p| >= 6 + 7 * length && i < length
    ensures ApAt(DecodeAll(DecodeAp, 7, p[6..], length)[i], p, 6 + 7 * i)
  {
    DecodeAllAt(DecodeAp, 7, p[6..], length, i);
    var at := 6 + 7 * i;
    SliceOfRest(p, 6, 7 * i, 7 * i + 7);
    ApSpelledOut(p[at..at + 7]);
    ApMoves(DecodeAp(p[at..at + 7]), p, at);
  }

  lemma CellInReport(p: seq<byte>, gsm: nat, n: nat, i: nat)
    requires |p| >= gsm + 4 + 5 * n && i < n
    ensures CellAt(DecodeAll(DecodeCell, 5, p[gsm..][4..], n)[i], p, gsm + 4 + 5 * i)
  {
    DecodeAllAt(DecodeCell, 5, p[gsm..][4..], n, i);
    var at := gsm + 4 + 5 * i;
    SliceOfRest(p[gsm..], 4, 5 * i, 5 * i + 5);
    SliceOfRest(p, gsm, 4 + 5 * i, 4 + 5 * i + 5);
    CellMoves(DecodeCell(p[at..at + 5]), p, at);
  }

  /** The length byte of the packet is the number of access points. */
  lemma PackedSpelledOut(proto: byte, r: Report)
    ensures Packed(proto, r).Some? <==> Encode(r).Some? && |r.aps| < 256
    ensures Packed(proto, r).Some? ==>
              Packed(proto, r).value[..2] == [|r.aps| as byte, proto] && Packed(proto, r).value[2..] == Encode(r).value
  {
  }
}
