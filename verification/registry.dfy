/**
  The collector's registry of connections as a value: what each operation does to the two maps, to the log
  of logins and stops, and to what is on record about each connection.
*/
module Registry {
  import opened Bytes
  import opened Protocols

  type Imei = seq<byte>

  /** A packet as it is published: with its protocol and the imei its connection is known by at that moment. */
  datatype Labelled = Labelled(proto: Proto, imei: Option<Imei>, packet: seq<byte>)

  /** The record of a connection: the bytes since it was recognised, what was delivered, whether bytes were dropped. */
  datatype Trace = Trace(history: seq<byte>, delivered: seq<Labelled>, overflowed: bool)

  const NO_TRACE := Trace([], [], false)

  /** A served connection. The serial number tells apart connections that had the same descriptor. */
  datatype Conn = Conn(serial: nat, stream: Option<Stream>, imei: Option<Imei>, trace: Trace)

  datatype Handle = Handle(serial: nat, fd: int)

  datatype LogEntry = Login(imei: Imei, serial: nat) | Stopped(serial: nat)

  datatype Registry = Registry(conns: map<int, Conn>, byImei: map<Imei, Handle>, next: nat, log: seq<LogEntry>)

  const EMPTY := Registry(map[], map[], 0, [])

  // ----- operations -----

  function Add(reg: Registry, fd: int): Registry {
    reg.(conns := reg.conns[fd := Conn(reg.next, None, None, NO_TRACE)], next := reg.next + 1)
  }

  /** The entry under the connection's imei points to that connection, and not to somebody else by now. */
  predicate OwnsEntry(reg: Registry, fd: int)
    requires fd in reg.conns
  {
    var c := reg.conns[fd];
    c.imei.Some? && c.imei.value != [] && c.imei.value in reg.byImei && reg.byImei[c.imei.value] == Handle(c.serial, fd)
  }

  function Stop(reg: Registry, fd: int): Registry {
    if fd !in reg.conns then reg
    else
      Registry(reg.conns - {fd},
               if OwnsEntry(reg, fd) then reg.byImei - {reg.conns[fd].imei.value} else reg.byImei,
               reg.next, reg.log + [Stopped(reg.conns[fd].serial)])
  }

  /** The connection that held the imei forgets it first, so that stopping it leaves the entry alone. */
  function Displace(reg: Registry, fd: int): Registry {
    if fd !in reg.conns then reg
    else Stop(reg.(conns := reg.conns[fd := reg.conns[fd].(imei := None)]), fd)
  }

  function LogIn(reg: Registry, fd: int, imei: Imei): Registry
    requires fd in reg.conns
  {
    var c := reg.conns[fd];
    var named := reg.(conns := reg.conns[fd := c.(imei := Some(imei))]);
    var alone := if imei in reg.byImei then Displace(named, reg.byImei[imei].fd) else named;
    alone.(byImei := alone.byImei[imei := Handle(c.serial, fd)], log := alone.log + [Login(imei, c.serial)])
  }

  /** What one packet of a connection does to the registry: the first that identifies it logs it in. */
  function TakePacket(reg: Registry, fd: int, p: Proto, packet: seq<byte>): Registry
    requires PacketOk(p, packet)
  {
    if fd in reg.conns && reg.conns[fd].imei.None? && ImeiFromPacket(p, packet).Some?
    then LogIn(reg, fd, ImeiFromPacket(p, packet).value)
    else reg
  }

  function LabelOf(reg: Registry, fd: int): Option<Imei> {
    if fd in reg.conns then reg.conns[fd].imei else None
  }

  predicate AllOk(p: Proto, packets: seq<seq<byte>>) {
    forall packet :: packet in packets ==> PacketOk(p, packet)
  }

  datatype Taken = Taken(msgs: seq<Labelled>, reg: Registry)

  function TakeAll(reg: Registry, fd: int, p: Proto, packets: seq<seq<byte>>): Taken
    requires AllOk(p, packets)
    decreases |packets|
  {
    if packets == [] then Taken([], reg)
    else
      assert packets[0] in packets;
      var now := TakePacket(reg, fd, p, packets[0]);
      var later := TakeAll(now, fd, p, packets[1..]);
      Taken([Labelled(p, LabelOf(now, fd), packets[0])] + later.msgs, later.reg)
  }

  /** What reading from a socket comes to: an error, or bytes, none of them at the end of the stream. */
  datatype Input = Failed | Segment(bytes: seq<byte>)

  datatype ClientGot = ClientGot(packets: seq<seq<byte>>, conn: Conn)

  /** Unrecognised segments are discarded; from the first recognised one on everything goes to one deframer. */
  function ClientRecv(pmods: seq<Proto>, c: Conn, segment: seq<byte>): ClientGot {
    var p := ProbePmod(pmods, segment);
    if c.stream.None? && p.None? then ClientGot([], c)
    else
      var s := if c.stream.None? then NewStream(p.value) else c.stream.value;
      var got := StreamRecv(s, segment);
      var trace := Trace(c.trace.history + segment, c.trace.delivered, c.trace.overflowed || Overflows(s, segment));
      ClientGot(got.packets, c.(stream := Some(got.stream), trace := trace))
  }

  lemma ClientPacketsOk(pmods: seq<Proto>, c: Conn, segment: seq<byte>)
    ensures var got := ClientRecv(pmods, c, segment);
            && (got.conn.stream.None? ==> got == ClientGot([], c))
            && (got.conn.stream.Some? ==> AllOk(ProtoOf(got.conn.stream.value), got.packets))
            && (c.stream.Some? ==>
                  got.conn.stream.Some? && ProtoOf(got.conn.stream.value) == ProtoOf(c.stream.value))
  {
    var p := ProbePmod(pmods, segment);
    if c.stream.Some? || p.Some? {
      PacketsOk(if c.stream.None? then NewStream(p.value) else c.stream.value, segment);
    }
  }

  /** Note on the connection's record what has been delivered. */
  function Record(reg: Registry, fd: int, msgs: seq<Labelled>): Registry {
    if fd !in reg.conns then reg
    else
      var c := reg.conns[fd];
      reg.(conns := reg.conns[fd := c.(trace := c.trace.(delivered := c.trace.delivered + msgs))])
  }

  datatype Outcome = Outcome(msgs: Option<seq<Labelled>>, reg: Registry)

  /** No messages at all, as opposed to an empty list, means that the terminal is gone. */
  function Recv(pmods: seq<Proto>, reg: Registry, fd: int, input: Input): Outcome {
    if fd !in reg.conns || input.Failed? || input.bytes == [] then Outcome(None, reg)
    else
      var got := ClientRecv(pmods, reg.conns[fd], input.bytes);
      ClientPacketsOk(pmods, reg.conns[fd], input.bytes);
      if got.conn.stream.None? then Outcome(Some([]), reg)
      else
        var taken := TakeAll(reg.(conns := reg.conns[fd := got.conn]), fd, ProtoOf(got.conn.stream.value), got.packets);
        Outcome(Some(taken.msgs), Record(taken.reg, fd, taken.msgs))
  }

  // ----- consistency of the maps -----

  /** The two maps agree, serial numbers are unique, and an imei is one of the protocol that its connection speaks. */
  ghost predicate Consistent(reg: Registry) {
    && (forall fd :: fd in reg.conns && reg.conns[fd].imei.Some? ==>
          && reg.conns[fd].imei.value in reg.byImei
          && reg.byImei[reg.conns[fd].imei.value] == Handle(reg.conns[fd].serial, fd))
    && (forall i :: i in reg.byImei ==>
          && reg.byImei[i].fd in reg.conns
          && reg.conns[reg.byImei[i].fd].serial == reg.byImei[i].serial
          && reg.conns[reg.byImei[i].fd].imei == Some(i))
    && (forall fd :: fd in reg.conns ==> reg.conns[fd].serial < reg.next)
    && (forall f, g :: f in reg.conns && g in reg.conns && f != g ==> reg.conns[f].serial != reg.conns[g].serial)
    && (forall fd :: fd in reg.conns && reg.conns[fd].imei.Some? ==>
          reg.conns[fd].stream.Some? && ImeiOk(ProtoOf(reg.conns[fd].stream.value), reg.conns[fd].imei.value))
  }

  /** Entry for entry: an imei leads to a connection exactly when that connection is served under that imei. */
  lemma MapsAgree(reg: Registry, i: Imei, fd: int)
    requires Consistent(reg)
    ensures (i in reg.byImei && reg.byImei[i].fd == fd) <==> (fd in reg.conns && reg.conns[fd].imei == Some(i))
  {
  }

  lemma NoSharedImei(reg: Registry, f: int, g: int)
    requires Consistent(reg)
    requires f in reg.conns && g in reg.conns && reg.conns[f].imei.Some? && reg.conns[f].imei == reg.conns[g].imei
    ensures f == g
  {
  }

  lemma AddConsistent(reg: Registry, fd: int)
    requires Consistent(reg) && fd !in reg.conns
    ensures Consistent(Add(reg, fd))
  {
  }

  lemma StopConsistent(reg: Registry, fd: int)
    requires Consistent(reg)
    ensures Consistent(Stop(reg, fd))
  {
  }

  /** What a login changes: the connection's own name, and the one connection that held the name before. */
  lemma LogInFrame(reg: Registry, fd: int, imei: Imei)
    requires Consistent(reg) && fd in reg.conns && reg.conns[fd].imei.None?
    ensures var after := LogIn(reg, fd, imei);
            && fd in after.conns && after.conns[fd] == reg.conns[fd].(imei := Some(imei))
            && after.next == reg.next
            && after.byImei == reg.byImei[imei := Handle(reg.conns[fd].serial, fd)]
            && (forall f :: f in after.conns <==> f in reg.conns && !(imei in reg.byImei && reg.byImei[imei].fd == f))
            && (forall f :: f in after.conns && f != fd ==> after.conns[f] == reg.conns[f])
            && after.log == reg.log
                 + (if imei in reg.byImei then [Stopped(reg.byImei[imei].serial)] else [])
                 + [Login(imei, reg.conns[fd].serial)]
  {
  }

  lemma LogInConsistent(reg: Registry, fd: int, imei: Imei)
    requires Consistent(reg) && fd in reg.conns && reg.conns[fd].imei.None? && reg.conns[fd].stream.Some?
    requires ImeiOk(ProtoOf(reg.conns[fd].stream.value), imei)
    ensures Consistent(LogIn(reg, fd, imei))
  {
    LogInFrame(reg, fd, imei);
  }

  // ----- the log: who owns an imei -----

  /** Who a response to `i` should reach, by the log alone. */
  function Owner(log: seq<LogEntry>, i: Imei): Option<nat> {
    if log == [] then None
    else
      var before, last := Owner(log[..|log| - 1], i), log[|log| - 1];
      match last
      case Login(j, s) => if j == i then Some(s) else before
      case Stopped(s) => if before == Some(s) then None else before
  }

  /** Entry `k` is the most recent login with `i`. */
  predicate LastLogin(log: seq<LogEntry>, i: Imei, k: nat) {
    && k < |log| && log[k].Login? && log[k].imei == i
    && forall m :: k < m < |log| ==> !(log[m].Login? && log[m].imei == i)
  }

  /** The most recent login with `i` was that of connection `s`, and it has not been stopped since. */
  ghost predicate LoggedInNow(log: seq<LogEntry>, i: Imei, s: nat) {
    exists k: nat :: LastLogin(log, i, k) && log[k].serial == s && Stopped(s) !in log[k..]
  }

  lemma {:induction false} OwnerMeaning(log: seq<LogEntry>, i: Imei, s: nat)
    ensures Owner(log, i) == Some(s) <==> LoggedInNow(log, i, s)
    decreases |log|
  {
    if log != [] {
      var init, last := log[..|log| - 1], log[|log| - 1];
      OwnerMeaning(init, i, s);
      if last.Login? && last.imei == i {
        assert LastLogin(log, i, |log| - 1);
        assert log[|log| - 1..] == [last];
        assert forall k: nat :: LastLogin(log, i, k) ==> k == |log| - 1;
      } else {
        forall k: nat | k < |init|
          ensures LastLogin(log, i, k) == LastLogin(init, i, k)
          ensures log[k..] == init[k..] + [last]
        {
          assert forall m :: 0 <= m < |init| ==> init[m] == log[m];
        }
        if LoggedInNow(init, i, s) && last != Stopped(s) {
          var k: nat :| LastLogin(init, i, k) && init[k].serial == s && Stopped(s) !in init[k..];
          assert LastLogin(log, i, k) && log[k].serial == s;
          assert log[k..] == init[k..] + [last];
        }
        if LoggedInNow(log, i, s) {
          var k: nat :| LastLogin(log, i, k) && log[k].serial == s && Stopped(s) !in log[k..];
          assert LastLogin(init, i, k) && init[k].serial == s;
          assert log[k..] == init[k..] + [last];
          assert last in log[k..];
        }
      }
    }
  }

  /** The map of imeis is what the log says it should be. */
  ghost predicate LogOk(reg: Registry) {
    forall i: Imei :: Owner(reg.log, i) == if i in reg.byImei then Some(reg.byImei[i].serial) else None
  }

  lemma OwnerSnoc(log: seq<LogEntry>, e: LogEntry, i: Imei)
    ensures Owner(log + [e], i) ==
            match e
            case Login(j, s) => if j == i then Some(s) else Owner(log, i)
            case Stopped(s) => if Owner(log, i) == Some(s) then None else Owner(log, i)
  {
    assert (log + [e])[..|log|] == log;
  }

  lemma StopLogOk(reg: Registry, fd: int)
    requires Consistent(reg) && LogOk(reg)
    ensures LogOk(Stop(reg, fd))
  {
    if fd in reg.conns {
      var after := Stop(reg, fd);
      forall i: Imei
        ensures Owner(after.log, i) == if i in after.byImei then Some(after.byImei[i].serial) else None
      {
        OwnerSnoc(reg.log, Stopped(reg.conns[fd].serial), i);
      }
    }
  }

  lemma LogInLogOk(reg: Registry, fd: int, imei: Imei)
    requires Consistent(reg) && LogOk(reg) && fd in reg.conns && reg.conns[fd].imei.None?
    ensures LogOk(LogIn(reg, fd, imei))
  {
    var after := LogIn(reg, fd, imei);
    LogInFrame(reg, fd, imei);
    var mid := reg.log + (if imei in reg.byImei then [Stopped(reg.byImei[imei].serial)] else []);
    forall i: Imei
      ensures Owner(after.log, i) == if i in after.byImei then Some(after.byImei[i].serial) else None
    {
      if imei in reg.byImei {
        OwnerSnoc(reg.log, Stopped(reg.byImei[imei].serial), i);
      } else {
        assert mid == reg.log;
      }
      OwnerSnoc(mid, Login(imei, reg.conns[fd].serial), i);
    }
  }
}
