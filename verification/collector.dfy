/** The collector's objects: connections, the registry that serves them, and the poll loop around it. */
module Collector {
  import opened Bytes
  import opened Protocols
  import opened Registry
  import Reg = Registry
  import opened RegistryRuns
  import opened Responses
  import opened Iteration
  import Zx303
  import Zx303Framing
  import Beesure
  import BeesureFraming

  method AnyOf<T>(s: set<T>) returns (x: T)
    requires s != {}
    ensures x in s
  {
    x :| x in s;
  }

  method ZxPackets(elems: seq<Zx303.Msg>) returns (packets: seq<seq<byte>>)
    ensures packets == Zx303Framing.Packets(elems)
  {
    packets := [];
    for i := 0 to |elems|
      invariant packets == Zx303Framing.Packets(elems[..i])
    {
      assert elems[..i + 1][..i] == elems[..i];
      if elems[i].Packet? {
        packets := packets + [elems[i].data];
      }
    }
    assert elems[..|elems|] == elems;
  }

  method BsPackets(elems: seq<Beesure.Msg>) returns (packets: seq<seq<byte>>)
    ensures packets == BeesureFraming.Packets(elems)
  {
    packets := [];
    for i := 0 to |elems|
      invariant packets == BeesureFraming.Packets(elems[..i])
    {
      assert elems[..i + 1][..i] == elems[..i];
      if elems[i].Packet? {
        packets := packets + [elems[i].data];
      }
    }
    assert elems[..|elems|] == elems;
  }

  class Client {
    const fd: int
    ghost const serial: nat
    var open: bool
    var pmod: Option<Proto>
    /** The deframer, once the protocol is known: an object of that protocol's class. */
    var zx: Zx303.Stream?
    var bs: Beesure.Stream?
    var imei: Option<Imei>
    ghost var trace: Trace

    constructor (sock: int, ghost number: nat)
      ensures fd == sock && serial == number && open && zx == null && bs == null
      ensures Shows(Conn(number, None, None, NO_TRACE))
    {
      fd := sock;
      serial := number;
      open := true;
      pmod := None;
      zx, bs := null, null;
      imei := None;
      trace := NO_TRACE;
    }

    /** The connection, its protocol module and its deframer are in the state `c`. */
    ghost predicate Shows(c: Conn)
      reads this, zx, bs
    {
      && c.serial == serial && c.imei == imei && c.trace == trace
      && (zx != null ==> bs == null && zx.owner == fd && pmod == Some(Zx) && c.stream == Some(ZxStream(zx.buffer)))
      && (bs != null ==> bs.owner == fd && pmod == Some(Bs) && c.stream == Some(BsStream(bs.View())))
      && (zx == null && bs == null ==> pmod == None && c.stream == None)
    }

    /** Until a segment is recognised there is no protocol module and no deframer. */
    method Recognise(pmods: seq<Proto>, segment: seq<byte>, ghost c: Conn)
      requires Shows(c) && c.stream.None?
      modifies this`pmod, this`zx, this`bs
      ensures zx != null ==> fresh(zx)
      ensures bs != null ==> fresh(bs)
      ensures var p := ProbePmod(pmods, segment);
              Shows(c.(stream := if p.None? then None else Some(NewStream(p.value))))
    {
      pmod := ProbePmod(pmods, segment);
      if pmod.Some? {
        match pmod.value {
          case Zx => zx := new Zx303.Stream(fd);
          case Bs => bs := new Beesure.Stream(fd);
        }
      }
    }

    /** Run a segment through the deframer and keep the packets among its messages. */
    method Feed(segment: seq<byte>, ghost c: Conn) returns (packets: seq<seq<byte>>)
      requires Shows(c) && c.stream.Some?
      modifies zx, bs
      ensures var got := StreamRecv(c.stream.value, segment);
              packets == got.packets && Shows(c.(stream := Some(got.stream)))
    {
      if zx != null {
        var elems := zx.Recv(segment);
        packets := ZxPackets(elems);
      } else {
        var elems := bs.Recv(segment);
        packets := BsPackets(elems);
      }
    }

    /** With a deframer at hand, every segment goes through it. */
    method Take(segment: seq<byte>, ghost c: Conn) returns (packets: seq<seq<byte>>)
      requires Shows(c) && c.stream.Some?
      modifies this`trace, zx, bs
      ensures var got := ClientRecv([], c, segment); packets == got.packets && Shows(got.conn)
    {
      packets := Feed(segment, c);
      trace := ClientRecv([], c, segment).conn.trace;
    }

    /** Read once; no list at all means that the terminal has gone. */
    method Recv(pmods: seq<Proto>, input: Input, ghost c: Conn) returns (msgs: Option<seq<seq<byte>>>)
      requires Shows(c)
      modifies this, zx, bs
      ensures open == old(open)
      ensures zx == old(zx) || fresh(zx)
      ensures bs == old(bs) || fresh(bs)
      ensures input.Failed? || input.bytes == [] ==> msgs == None && Shows(c) && zx == old(zx) && bs == old(bs)
      ensures input.Segment? && input.bytes != [] ==>
                var got := ClientRecv(pmods, c, input.bytes);
                msgs == Some(got.packets) && Shows(got.conn)
    {
      if input.Failed? || input.bytes == [] {
        return None;
      }
      var segment := input.bytes;
      ghost var known := c;
      if zx == null && bs == null {
        Recognise(pmods, segment, c);
        ghost var p := ProbePmod(pmods, segment);
        known := c.(stream := if p.None? then None else Some(NewStream(p.value)));
      }
      if zx == null && bs == null {
        return Some([]);
      }
      var packets := Take(segment, known);
      return Some(packets);
    }

    /** What is written to the socket, or nothing if the framing cannot be put on. */
    method Send(buffer: seq<byte>) returns (data: Option<seq<byte>>)
      requires pmod.Some?
      ensures data == Enframe(pmod.value, buffer, imei)
    {
      data := Enframe(pmod.value, buffer, imei);
    }

    method Close()
      modifies this, zx, bs
      ensures !open && imei == old(imei)
    {
      open := false;
      if zx != null {
        var rest := zx.Close();
      } else if bs != null {
        var rest := bs.Close();
      }
    }
  }

  lemma LinkSurvives(byFd: map<int, Client>, byImei: map<Imei, Client>, imei: Imei)
    requires imei in byImei
    requires forall i :: i in byImei ==> byImei[i].fd in byFd && byFd[byImei[i].fd] == byImei[i]
    requires forall i, j :: i in byImei && j in byImei && i != j ==> byImei[i].fd != byImei[j].fd
    ensures var rest := byFd - {byImei[imei].fd};
            forall i :: i in byImei && i != imei ==> byImei[i].fd in rest && rest[byImei[i].fd] == byImei[i]
  {
  }

  class Clients {
    var byFd: map<int, Client>
    var byImei: map<Imei, Client>
    /** The registry as a value, with the log of logins and stops; `Wired` ties it to the objects. */
    ghost var model: Registry
    ghost var Repr: set<object>

    constructor ()
      ensures Wired() && Linked() && fresh(Repr) && model == EMPTY
    {
      byFd := map[];
      byImei := map[];
      model := EMPTY;
      Repr := {this};
    }

    /** Every served connection, save those excepted, is open under its own key and in the state of the model. */
    ghost predicate WiredBut(except: set<int>)
      reads this, Repr
    {
      && this in Repr
      && byFd.Keys == model.conns.Keys
      && (forall f :: f in byFd && f !in except ==>
            && byFd[f] in Repr && byFd[f].fd == f && byFd[f].open
            && (byFd[f].zx != null ==> byFd[f].zx in Repr)
            && (byFd[f].bs != null ==> byFd[f].bs in Repr)
            && byFd[f].Shows(model.conns[f]))
      && byImei.Keys == model.byImei.Keys
      && (forall i :: i in byImei ==> model.byImei[i] == Handle(byImei[i].serial, byImei[i].fd))
    }

    ghost predicate Wired()
      reads this, Repr
    {
      WiredBut({})
    }

    /** The connection found under an imei is the very object that is served. */
    ghost predicate LinkedBut(except: set<Imei>)
      reads this
    {
      forall i :: i in byImei && i !in except ==> byImei[i].fd in byFd && byFd[byImei[i].fd] == byImei[i]
    }

    ghost predicate Linked()
      reads this
    {
      LinkedBut({})
    }

    method Add(fd: int)
      requires Wired() && Linked() && fd !in byFd
      modifies this
      ensures Wired() && Linked() && fresh(Repr - old(Repr))
      ensures model == Reg.Add(old(model), fd)
    {
      var c := new Client(fd, model.next);
      byFd := byFd[fd := c];
      Repr := Repr + {c};
      model := Reg.Add(model, fd);
    }

    /** Only an imei that leads to this very connection is forgotten with it. */
    method Stop(fd: int)
      requires Wired()
      requires fd in byFd && byFd[fd].imei.Some? ==> Linked() && byFd[fd].imei.value in byImei
      modifies Repr
      ensures Wired() && Repr == old(Repr)
      ensures model == Reg.Stop(old(model), fd)
      ensures byFd == old(byFd) - {fd}
      ensures fd in old(byFd) ==> !old(byFd[fd]).open
      ensures byImei == if fd in old(byFd) && OwnsEntry(old(model), fd) then old(byImei) - {old(byFd[fd].imei.value)}
                        else old(byImei)
    {
      if fd !in byFd {
        assert byFd - {fd} == byFd;
        return;
      }
      var clnt := byFd[fd];
      clnt.Close();
      Forget(fd, clnt);
    }

    method Forget(fd: int, clnt: Client)
      requires WiredBut({fd}) && fd in byFd && byFd[fd] == clnt && clnt.fd == fd
      requires clnt.imei == model.conns[fd].imei && clnt.serial == model.conns[fd].serial
      requires clnt.imei.Some? ==> Linked() && clnt.imei.value in byImei
      modifies this
      ensures Wired() && Repr == old(Repr)
      ensures model == Reg.Stop(old(model), fd)
      ensures byFd == old(byFd) - {fd}
      ensures byImei == if fd in old(byFd) && OwnsEntry(old(model), fd) then old(byImei) - {old(byFd[fd].imei.value)}
                        else old(byImei)
    {
      model := Reg.Stop(model, fd);
      if clnt.imei.Some? && clnt.imei.value != [] && byImei[clnt.imei.value] == clnt {
        byImei := byImei - {clnt.imei.value};
      }
      byFd := byFd - {fd};
    }

    method Rename(clnt: Client, name: Option<Imei>)
      requires Wired() && clnt.fd in byFd && byFd[clnt.fd] == clnt
      modifies this`model, this`Repr, clnt`imei
      ensures Wired() && Repr == old(Repr) && clnt.imei == name
      ensures var fd, was := clnt.fd, old(model);
              model == was.(conns := was.conns[fd := was.conns[fd].(imei := name)])
    {
      clnt.imei := name;
      assert WiredBut({clnt.fd});
      Adopt(clnt.fd, clnt, model.conns[clnt.fd].(imei := name));
    }

    /** A newer connection takes the imei over: the stale one forgets it and is stopped. */
    method Displace(oldclnt: Client)
      requires Wired() && oldclnt.fd in byFd && byFd[oldclnt.fd] == oldclnt
      modifies Repr
      ensures Wired() && Repr == old(Repr)
      ensures model == Reg.Displace(old(model), oldclnt.fd)
      ensures byFd == old(byFd) - {oldclnt.fd} && byImei == old(byImei)
      ensures !oldclnt.open
    {
      var oldfd := oldclnt.fd;
      assert oldclnt.open;
      Rename(oldclnt, None);
      Stop(oldfd);
    }

    method Enter(fd: int, clnt: Client, imei: Imei)
      requires Wired() && LinkedBut({imei})
      requires fd in byFd && byFd[fd] == clnt && clnt.fd == fd
      modifies this
      ensures Wired() && Linked() && Repr == old(Repr) && byFd == old(byFd)
      ensures model == old(model).(byImei := old(model).byImei[imei := Handle(clnt.serial, fd)],
                                   log := old(model).log + [Login(imei, clnt.serial)])
    {
      byImei := byImei[imei := clnt];
      model := model.(byImei := model.byImei[imei := Handle(clnt.serial, fd)],
                      log := model.log + [Login(imei, clnt.serial)]);
    }

    /** Different imeis lead to different connections, and none of them to the nameless one at `fd`. */
    ghost predicate EntriesDiffer(fd: int)
      reads this
    {
      && (forall i :: i in byImei ==> byImei[i].fd != fd)
      && (forall i, j :: i in byImei && j in byImei && i != j ==> byImei[i].fd != byImei[j].fd)
    }

    lemma ConsistentEntries(fd: int)
      requires Wired() && Linked() && Consistent(model) && fd in byFd && byFd[fd].imei == None
      ensures EntriesDiffer(fd)
    {
      assert model.conns[fd].imei == None;
      forall i | i in byImei ensures model.conns[byImei[i].fd].imei == Some(i) {
        assert i in model.byImei;
      }
    }

    /** Whoever holds the imei so far is stopped; its entry stays until it is overwritten. */
    method StopStale(imei: Imei)
      requires Wired() && Linked()
      requires forall i, j :: i in byImei && j in byImei && i != j ==> byImei[i].fd != byImei[j].fd
      modifies Repr
      ensures Wired() && LinkedBut({imei}) && Repr == old(Repr) && byImei == old(byImei)
      ensures model == if imei in byImei then Reg.Displace(old(model), byImei[imei].fd) else old(model)
      ensures byFd == if imei in byImei then old(byFd) - {byImei[imei].fd} else old(byFd)
      ensures imei in byImei ==> !byImei[imei].open
    {
      if imei in byImei {
        LinkSurvives(byFd, byImei, imei);
        Displace(byImei[imei]);
      }
    }

    method LogIn(fd: int, clnt: Client, imei: Imei)
      requires Wired() && Linked() && EntriesDiffer(fd)
      requires fd in byFd && byFd[fd] == clnt && clnt.imei == None
      modifies Repr
      ensures Wired() && Linked() && Repr == old(Repr)
      ensures model == Reg.LogIn(old(model), fd, imei)
      ensures fd in byFd && byFd[fd] == clnt
      ensures imei in old(byImei) ==> !old(byImei[imei]).open
    {
      Rename(clnt, Some(imei));
      StopStale(imei);
      Enter(fd, clnt, imei);
    }

    /** One packet of a connection: log the connection in if it identifies it. */
    method TakePacket(fd: int, clnt: Client, packet: seq<byte>)
      requires Wired() && Linked() && Consistent(model)
      requires fd in byFd && byFd[fd] == clnt && clnt.pmod.Some? && PacketOk(clnt.pmod.value, packet)
      modifies Repr
      ensures Wired() && Linked() && Repr == old(Repr)
      ensures model == Reg.TakePacket(old(model), fd, old(clnt.pmod.value), packet)
      ensures fd in byFd && byFd[fd] == clnt
    {
      if clnt.imei == None {
        var imei := ImeiFromPacket(clnt.pmod.value, packet);
        if imei.Some? {
          ConsistentEntries(fd);
          LogIn(fd, clnt, imei.value);
        }
      }
    }

    /** Bring the model up to date with a connection that has changed. */
    ghost method Adopt(fd: int, clnt: Client, c: Conn)
      requires WiredBut({fd}) && fd in byFd && byFd[fd] == clnt && clnt in Repr && clnt.fd == fd && clnt.open
      requires clnt.Shows(c)
      modifies this`model, this`Repr
      ensures Wired() && model == old(model).(conns := old(model).conns[fd := c])
      ensures Repr == old(Repr) + (if clnt.zx != null then {clnt.zx} else {})
                      + (if clnt.bs != null then {clnt.bs} else {})
    {
      model := model.(conns := model.conns[fd := c]);
      Repr := Repr + (if clnt.zx != null then {clnt.zx} else {}) + (if clnt.bs != null then {clnt.bs} else {});
    }

    /** The messages of one connection, if there is something to read. */
    method Read(pmods: seq<Proto>, fd: int, input: Input) returns (msgs: Option<seq<seq<byte>>>)
      requires Wired() && Linked() && fd in byFd
      modifies Repr
      ensures Wired() && Linked() && fresh(Repr - old(Repr)) && byFd == old(byFd)
      ensures input.Failed? || input.bytes == [] ==> msgs == None && model == old(model)
      ensures input.Segment? && input.bytes != [] ==>
                var got := ClientRecv(pmods, old(model).conns[fd], input.bytes);
                msgs == Some(got.packets) && model == old(model).(conns := old(model).conns[fd := got.conn])
    {
      var clnt := byFd[fd];
      ghost var c := model.conns[fd];
      msgs := clnt.Recv(pmods, input, c);
      assert WiredBut({fd});
      if msgs.Some? {
        Adopt(fd, clnt, ClientRecv(pmods, c, input.bytes).conn);
      } else {
        Adopt(fd, clnt, c);
        assert model.conns == old(model.conns);
      }
    }

    /** One packet of a connection, labelled after it has been looked at. */
    method Publish(fd: int, clnt: Client, packet: seq<byte>) returns (m: Labelled)
      requires Wired() && Linked() && Sane(model)
      requires fd in byFd && byFd[fd] == clnt && clnt.pmod.Some? && PacketOk(clnt.pmod.value, packet)
      modifies Repr
      ensures Wired() && Linked() && Sane(model) && Repr == old(Repr)
      ensures fd in byFd && byFd[fd] == clnt && clnt.pmod == old(clnt.pmod)
      ensures model == Reg.TakePacket(old(model), fd, old(clnt.pmod.value), packet)
      ensures m == Labelled(old(clnt.pmod.value), LabelOf(model, fd), packet)
    {
      TakePacketOk(model, fd, clnt.pmod.value, packet);
      TakePacket(fd, clnt, packet);
      m := Labelled(clnt.pmod.value, clnt.imei, packet);
    }

    /** Label the packets one by one, logging the connection in on the way. */
    method HandOut(fd: int, clnt: Client, packets: seq<seq<byte>>) returns (result: seq<Labelled>)
      requires Wired() && Linked() && Sane(model)
      requires fd in byFd && byFd[fd] == clnt && clnt.pmod.Some? && AllOk(clnt.pmod.value, packets)
      modifies Repr
      ensures Wired() && Linked() && Repr == old(Repr)
      ensures Taken(result, model) == TakeAll(old(model), fd, old(clnt.pmod.value), packets)
      ensures fd in byFd && byFd[fd] == clnt
    {
      result := [];
      ghost var p := clnt.pmod.value;
      ghost var whole := TakeAll(model, fd, p, packets);
      for i := 0 to |packets|
        invariant Wired() && Linked() && Sane(model) && Repr == old(Repr)
        invariant fd in byFd && byFd[fd] == clnt && clnt.pmod == Some(p)
        invariant AllOk(p, packets[i..])
        invariant Prepend(result, TakeAll(model, fd, p, packets[i..])) == whole
      {
        assert packets[i..][0] == packets[i] && packets[i..][1..] == packets[i + 1..];
        assert packets[i] in packets[i..];
        var m := Publish(fd, clnt, packets[i]);
        Assoc(result, [m], TakeAll(model, fd, p, packets[i + 1..]).msgs);
        result := result + [m];
      }
    }

    /** Note on the connection's record what has been handed out. */
    ghost method Note(fd: int, clnt: Client, msgs: seq<Labelled>)
      requires Wired() && fd in byFd && byFd[fd] == clnt
      modifies this`model, this`Repr, clnt`trace
      ensures Wired() && Repr == old(Repr) && model == Record(old(model), fd, msgs)
    {
      var c := model.conns[fd];
      clnt.trace := c.trace.(delivered := c.trace.delivered + msgs);
      assert WiredBut({fd});
      Adopt(fd, clnt, c.(trace := clnt.trace));
    }

    method Serve(fd: int, packets: seq<seq<byte>>) returns (result: seq<Labelled>)
      requires Wired() && Linked() && Sane(model)
      requires fd in byFd && model.conns[fd].stream.Some? && AllOk(ProtoOf(model.conns[fd].stream.value), packets)
      modifies Repr
      ensures Wired() && Linked() && Repr == old(Repr)
      ensures var taken := TakeAll(old(model), fd, ProtoOf(old(model).conns[fd].stream.value), packets);
              result == taken.msgs && model == Record(taken.reg, fd, taken.msgs)
    {
      var clnt := byFd[fd];
      result := HandOut(fd, clnt, packets);
      Note(fd, clnt, result);
    }

    /** Everything one arrival on a connection brings, with the imei that the connection goes by at each packet. */
    method Recv(pmods: seq<Proto>, fd: int, input: Input) returns (result: Option<seq<Labelled>>)
      requires Wired() && Linked() && Invariant(model)
      modifies Repr
      ensures Wired() && Linked() && fresh(Repr - old(Repr))
      ensures Outcome(result, model) == Reg.Recv(pmods, old(model), fd, input)
    {
      if fd !in byFd {
        return None;
      }
      if input.Segment? && input.bytes != [] {
        ReadOk(pmods, model, fd, input.bytes);
      }
      result := RecvServed(pmods, fd, input);
    }

    method RecvServed(pmods: seq<Proto>, fd: int, input: Input) returns (result: Option<seq<Labelled>>)
      requires Wired() && Linked() && fd in byFd
      requires input.Segment? && input.bytes != [] ==> ReadyToServe(pmods, model, fd, input.bytes)
      modifies Repr
      ensures Wired() && Linked() && fresh(Repr - old(Repr))
      ensures Outcome(result, model) == Reg.Recv(pmods, old(model), fd, input)
    {
      var msgs := Read(pmods, fd, input);
      if msgs == None {
        return None;
      }
      if byFd[fd].pmod == None {
        return Some([]);
      }
      var labelled := Serve(fd, msgs.value);
      return Some(labelled);
    }

    /** Whoever is found under an imei goes by it, and has a protocol module and a deframer. */
    lemma Found(imei: Imei)
      requires Wired() && Linked() && Consistent(model) && imei in byImei
      ensures var clnt := byImei[imei];
              && imei in model.byImei && model.byImei[imei] == Handle(clnt.serial, clnt.fd)
              && clnt.fd in model.conns && model.conns[clnt.fd].stream.Some? && model.conns[clnt.fd].imei == Some(imei)
              && clnt.imei == Some(imei) && clnt.pmod == Some(ProtoOf(model.conns[clnt.fd].stream.value))
    {
      var clnt := byImei[imei];
      assert imei in model.byImei && model.byImei[imei] == Handle(clnt.serial, clnt.fd);
      assert model.conns[clnt.fd].imei == Some(imei);
      assert byFd[clnt.fd] == clnt && clnt.Shows(model.conns[clnt.fd]);
    }

    /**
      Write to whoever goes by the imei now: `to` is that connection and `pmod` its protocol module, `data` what is
      written to its socket, or nothing where the source raises.
    */
    method Response(imei: Option<Imei>, packet: seq<byte>)
      returns (pmod: Option<Proto>, to: Option<Client>, data: Option<seq<byte>>)
      requires Wired() && Linked() && Consistent(model)
      ensures match Responses.Response(model, imei, packet)
              case NotConnected => to == None
              case Written(h, p, d) =>
                to.Some? && Handle(to.value.serial, to.value.fd) == h && pmod == Some(p) && data == Some(d)
              case Fails(h) => to.Some? && Handle(to.value.serial, to.value.fd) == h && data == None
    {
      if imei == None || imei.value !in byImei {
        return None, None, None;
      }
      var clnt := byImei[imei.value];
      Found(imei.value);
      data := clnt.Send(packet);
      return clnt.pmod, Some(clnt), data;
    }
  }

  /** What comes before the rest of the packets are taken. */
  ghost function Prepend(msgs: seq<Labelled>, rest: Taken): Taken {
    Taken(msgs + rest.msgs, rest.reg)
  }

  /** After reading, the maps are still in order, and the packets fit the protocol of the connection. */
  ghost predicate ReadyToServe(pmods: seq<Proto>, reg: Registry, fd: int, segment: seq<byte>)
    requires fd in reg.conns
  {
    var got := ClientRecv(pmods, reg.conns[fd], segment);
    && (got.conn.stream.None? ==> got == ClientGot([], reg.conns[fd]))
    && (got.conn.stream.Some? ==>
          AllOk(ProtoOf(got.conn.stream.value), got.packets) && Sane(reg.(conns := reg.conns[fd := got.conn])))
  }

  lemma ReadOk(pmods: seq<Proto>, reg: Registry, fd: int, segment: seq<byte>)
    requires Invariant(reg) && fd in reg.conns
    ensures ReadyToServe(pmods, reg, fd, segment)
  {
    var got := ClientRecv(pmods, reg.conns[fd], segment);
    ClientPacketsOk(pmods, reg.conns[fd], segment);
    if got.conn.stream.Some? {
      ReplaceSane(reg, fd, got.conn);
    }
  }

  /** The server: the registry, and the descriptors it has asked the poller to watch. */
  class Server {
    const cfg: Config
    const clients: Clients
    var pollingfds: set<int>
    /** What the poller watches besides the listening socket and the bus. */
    var poller: set<int>

    constructor (config: Config)
      ensures Valid() && cfg == config && clients.model == EMPTY && fresh(clients.Repr)
    {
      cfg := config;
      clients := new Clients();
      pollingfds := {};
      poller := {};
      new;
      EmptyInvariant();
    }

    ghost predicate Sound()
      reads this, clients, clients.Repr
    {
      clients.Wired() && clients.Linked() && Invariant(clients.model) && this !in clients.Repr
    }

    /** Between rounds the watched, the remembered and the served descriptors are the same. */
    ghost predicate Valid()
      reads this, clients, clients.Repr
    {
      Sound() && pollingfds == clients.byFd.Keys && poller == pollingfds
    }

    method Register(fd: int)
      requires fd !in poller
      modifies this`poller
      ensures poller == old(poller) + {fd}
    {
      poller := poller + {fd};
    }

    method Unregister(fd: int)
      requires fd in poller
      modifies this`poller
      ensures poller == old(poller) - {fd}
    {
      poller := poller - {fd};
    }

    /** Stop a connection by its descriptor, if it is still served. */
    method Stop(fd: int)
      requires Sound()
      modifies clients.Repr
      ensures Sound() && clients.Repr == old(clients.Repr)
      ensures clients.model == Reg.Stop(old(clients.model), fd)
    {
      ghost var before := clients.model;
      StopOk(before, fd);
      StopReady(fd);
      clients.Stop(fd);
      assert clients.Linked();
    }

    lemma StopReady(fd: int)
      requires Sound()
      ensures fd in clients.byFd && clients.byFd[fd].imei.Some? ==> clients.byFd[fd].imei.value in clients.byImei
    {
    }

    /** The packets of one connection: publish each, stop the connection on a goodbye, queue inline answers. */
    method Consume(fd: int, msgs: seq<Labelled>, tosend0: seq<Resp>, published0: seq<Labelled>, ghost toadd: seq<int>)
      returns (tosend: seq<Resp>, published: seq<Labelled>)
      requires Sound() && MsgsOk(msgs)
      modifies clients.Repr
      ensures Sound() && clients.Repr == old(clients.Repr)
      ensures Batch(clients.model, tosend, toadd, published) ==
              Iteration.Consume(cfg, Batch(old(clients.model), tosend0, toadd, published0), fd, msgs)
    {
      tosend, published := tosend0, published0;
      ghost var whole := Iteration.Consume(cfg, Batch(clients.model, tosend, toadd, published), fd, msgs);
      for i := 0 to |msgs|
        invariant Sound() && clients.Repr == old(clients.Repr) && MsgsOk(msgs[i..])
        invariant Iteration.Consume(cfg, Batch(clients.model, tosend, toadd, published), fd, msgs[i..]) == whole
      {
        assert msgs[i..][0] == msgs[i] && msgs[i..][1..] == msgs[i + 1..];
        assert msgs[i] in msgs[i..];
        var m := msgs[i];
        published := published + [m];
        if IsGoodbye(m.proto, m.packet) && cfg.hibernate {
          Stop(fd);
        }
        var respmsg := cfg.inline(m.proto, m.packet);
        if respmsg.Some? {
          tosend := tosend + [Resp(m.imei, respmsg.value)];
        } else {
          assert tosend + [] == tosend;
        }
      }
    }

    /** A readable socket: the terminal is gone, or it has sent something. */
    method Readable(fd: int, input: Input, tosend0: seq<Resp>, published0: seq<Labelled>, ghost toadd: seq<int>)
      returns (tosend: seq<Resp>, published: seq<Labelled>)
      requires Sound()
      modifies clients, clients.Repr
      ensures Sound() && fresh(clients.Repr - old(clients.Repr))
      ensures Batch(clients.model, tosend, toadd, published) ==
              HandleEvent(cfg, Batch(old(clients.model), tosend0, toadd, published0), Event.Readable(fd, input))
    {
      RecvOk(cfg.pmods, clients.model, fd, input);
      RecvMsgsOk(cfg.pmods, clients.model, fd, input);
      var received := clients.Recv(cfg.pmods, fd, input);
      if received == None {
        Stop(fd);
        return tosend0, published0;
      }
      tosend, published := Consume(fd, received.value, tosend0, published0, toadd);
    }

    /** The events of one poll, in the order in which the poller reports them. */
    method HandleEvents(events: seq<Event>)
      returns (tosend: seq<Resp>, toadd: seq<int>, published: seq<Labelled>)
      requires Sound()
      modifies clients, clients.Repr
      ensures Sound() && fresh(clients.Repr - old(clients.Repr))
      ensures Batch(clients.model, tosend, toadd, published) == HandleAll(cfg, Start(old(clients.model)), events)
    {
      tosend, toadd, published := [], [], [];
      ghost var whole := HandleAll(cfg, Start(clients.model), events);
      for i := 0 to |events|
        invariant Sound() && fresh(clients.Repr - old(clients.Repr))
        invariant HandleAll(cfg, Batch(clients.model, tosend, toadd, published), events[i..]) == whole
      {
        assert events[i..][0] == events[i] && events[i..][1..] == events[i + 1..];
        match events[i] {
          case FromBus(resps) => tosend := tosend + resps;
          case Incoming(fd) => toadd := toadd + [fd];
          case Readable(fd, input) => tosend, published := Readable(fd, input, tosend, published, toadd);
          case Stray(_) =>
        }
      }
    }

    /** Hand one response to the connection that goes by its imei now, and broadcast it if that could be done. */
    method SendOne(resp: Resp, outgoing0: seq<Labelled>, ghost replies0: seq<Reply>)
      returns (running: bool, outgoing: seq<Labelled>, ghost replies: seq<Reply>)
      requires Sound()
      ensures Sent(replies, outgoing, running) ==
              Iteration.SendOne(clients.model, Sent(replies0, outgoing0, true), resp)
    {
      var pmod, to, data := clients.Response(resp.imei, resp.packet);
      replies := replies0 + [Responses.Response(clients.model, resp.imei, resp.packet)];
      if to == None {
        return true, outgoing0, replies;
      }
      if data == None || (pmod == Some(Zx) && |resp.packet| < 2) {
        return false, outgoing0, replies;
      }
      return true, outgoing0 + [Labelled(pmod.value, resp.imei, resp.packet)], replies;
    }

    /** The responses in the order in which they were queued, until one raises something. */
    method SendAll(tosend: seq<Resp>) returns (running: bool, outgoing: seq<Labelled>, ghost replies: seq<Reply>)
      requires Sound()
      ensures Sent(replies, outgoing, running) == Iteration.SendAll(clients.model, NOTHING_SENT, tosend)
      ensures running <==> forall r :: r in tosend ==> Sendable(clients.model, r)
      ensures outgoing == Echoes(clients.model, Served(clients.model, tosend))
    {
      SendingSurvives(clients.model, tosend);
      running, outgoing, replies := true, [], [];
      ghost var whole := Iteration.SendAll(clients.model, NOTHING_SENT, tosend);
      for i := 0 to |tosend|
        invariant running
        invariant Iteration.SendAll(clients.model, Sent(replies, outgoing, running), tosend[i..]) == whole
      {
        assert tosend[i..][0] == tosend[i] && tosend[i..][1..] == tosend[i + 1..];
        running, outgoing, replies := SendOne(tosend[i], outgoing, replies);
        if !running {
          return;
        }
      }
    }

    method UnregisterAll(fds: set<int>)
      requires fds <= poller
      modifies this`poller
      ensures poller == old(poller) - fds
    {
      var rest := fds;
      while rest != {}
        invariant rest <= fds
        invariant poller == old(poller) - (fds - rest)
        decreases rest
      {
        var fd := AnyOf(rest);
        Unregister(fd);
        rest := rest - {fd};
      }
    }

    method RegisterAll(fds: set<int>)
      requires fds !! poller
      modifies this`poller
      ensures poller == old(poller) + fds
    {
      var rest := fds;
      while rest != {}
        invariant rest <= fds
        invariant poller == old(poller) + (fds - rest)
        decreases rest
      {
        var fd := AnyOf(rest);
        Register(fd);
        rest := rest - {fd};
      }
    }

    method AddAccepted(toadd: seq<int>)
      requires clients.Wired() && clients.Linked() && this !in clients.Repr
      requires Distinct(toadd) && forall fd :: fd in toadd ==> fd !in clients.byFd
      modifies clients
      ensures clients.Wired() && clients.Linked() && this !in clients.Repr && fresh(clients.Repr - old(clients.Repr))
      ensures clients.model == AddAll(old(clients.model), toadd)
    {
      ghost var whole := AddAll(clients.model, toadd);
      for i := 0 to |toadd|
        invariant clients.Wired() && clients.Linked() && this !in clients.Repr
        invariant fresh(clients.Repr - old(clients.Repr))
        invariant forall k :: i <= k < |toadd| ==> toadd[k] !in clients.byFd
        invariant AddAll(clients.model, toadd[i..]) == whole
      {
        assert toadd[i..][0] == toadd[i] && toadd[i..][1..] == toadd[i + 1..];
        clients.Add(toadd[i]);
      }
    }

    /** Bring the poller up to date: drop what is gone, serve what was accepted, watch what is new. */
    method UpdatePoller(toadd: seq<int>)
      requires clients.Wired() && clients.Linked() && this !in clients.Repr
      requires clients.byFd.Keys <= pollingfds == poller
      requires Distinct(toadd) && forall fd :: fd in toadd ==> fd !in clients.byFd
      modifies this`pollingfds, this`poller, clients
      ensures clients.Wired() && clients.Linked() && this !in clients.Repr && fresh(clients.Repr - old(clients.Repr))
      ensures clients.model == AddAll(old(clients.model), toadd)
      ensures pollingfds == clients.byFd.Keys
      ensures poller == PollSet(old(poller), old(pollingfds), old(clients.byFd.Keys), clients.byFd.Keys)
    {
      UnregisterAll(pollingfds - clients.byFd.Keys);
      AddAccepted(toadd);
      RegisterAll(clients.byFd.Keys - pollingfds);
      pollingfds := clients.byFd.Keys;
    }

    /** The second half of a round: send what was queued, and if that went well bring the poller up to date. */
    method Finish(tosend: seq<Resp>, toadd: seq<int>)
      returns (running: bool, outgoing: seq<Labelled>, ghost replies: seq<Reply>)
      requires Sound() && clients.byFd.Keys <= pollingfds == poller
      requires Distinct(toadd) && forall fd :: fd in toadd ==> fd !in clients.byFd
      requires Invariant(AddAll(clients.model, toadd))
      modifies this`pollingfds, this`poller, clients
      ensures Sound() && fresh(clients.Repr - old(clients.Repr))
      ensures Sent(replies, outgoing, running) == Iteration.SendAll(old(clients.model), NOTHING_SENT, tosend)
      ensures clients.model == if running then AddAll(old(clients.model), toadd) else old(clients.model)
      ensures running ==> pollingfds == clients.byFd.Keys
      ensures running ==> poller == PollSet(old(poller), old(pollingfds), old(clients.byFd.Keys), clients.byFd.Keys)
    {
      running, outgoing, replies := SendAll(tosend);
      if running {
        UpdatePoller(toadd);
      }
    }

    /** One round of the loop, which is the last one if a response raises something. */
    method Round(events: seq<Event>)
      returns (running: bool, published: seq<Labelled>, outgoing: seq<Labelled>, ghost replies: seq<Reply>)
      requires Valid() && FreshAccepts(clients.model, events)
      modifies this`pollingfds, this`poller, clients, clients.Repr
      ensures Sound() && (running ==> Valid()) && fresh(clients.Repr - old(clients.Repr))
      ensures Done(clients.model, published, Sent(replies, outgoing, running)) ==
              Iterate(cfg, old(clients.model), events)
    {
      ghost var before := clients.model;
      ReadyToAdd(cfg, before, events);
      var tosend, toadd;
      tosend, toadd, published := HandleEvents(events);
      running, outgoing, replies := Finish(tosend, toadd);
    }
  }
}
