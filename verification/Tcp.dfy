/** The TCP receive path of drivers/net/net.c: the socket's receive ring, `tcp_handle` and `sock_recv`,
    and the byte stream they deliver from an in-order peer. */
module Tcp {
  import opened Types

  const RXBUF: nat := 8192
  const SOCK_TCP: u8 := 0

  datatype Phase = Closed | SynSent | Established | FinWait | CloseWait | LastAck

  datatype Segment = Segment(srcIp: u32, srcPort: u16, dstPort: u16, seqNo: u32, ackNo: u32,
                             fin: bool, syn: bool, rst: bool, ack: bool, data: seq<u8>)

  function Plus(a: u32, n: nat): u32 { (a + n) % TWO32 }

  // ---- tcp_handle as a function on the socket's abstract state ---------------------------------

  /** What the receive path keeps of a socket; `ring` is the bytes received and not yet read. */
  datatype Conn = Conn(phase: Phase, connected: bool, remotePort: u16, txSeq: u32, rxSeq: u32, ring: seq<u8>)

  /** A new state and the acknowledgement numbers sent, in order. */
  datatype Reply = Reply(conn: Conn, acks: seq<u32>)

  /** The SYN-ACK branch, or taking over the peer's acknowledgement. */
  function OnFlags(c: Conn, s: Segment): Reply {
    if s.syn && s.ack && c.phase == SynSent then
      var d := c.(rxSeq := Plus(s.seqNo, 1), txSeq := s.ackNo, phase := Established, connected := true,
        remotePort := s.srcPort);
      Reply(d, [d.rxSeq])
    else if s.ack then Reply(c.(txSeq := s.ackNo), [])
    else Reply(c, [])
  }

  function OnData(c: Conn, s: Segment): Reply {
    if |s.data| > 0 && c.phase == Established then
      var rx := Plus(s.seqNo, |s.data|);
      var fits := |s.data| <= RXBUF - |c.ring| - 1;
      Reply(c.(rxSeq := rx, ring := if fits then c.ring + s.data else c.ring), [rx])
    else Reply(c, [])
  }

  function OnFin(c: Conn, s: Segment): Reply {
    if s.fin then
      var rx := Plus(c.rxSeq, 1);
      Reply(c.(rxSeq := rx, phase := CloseWait), [rx])
    else Reply(c, [])
  }

  function OnRst(c: Conn, s: Segment): Conn {
    if s.rst then c.(phase := Closed, connected := false) else c
  }

  function Handle(c: Conn, s: Segment): Reply {
    var f := OnFlags(c, s);
    var d := OnData(f.conn, s);
    var e := OnFin(d.conn, s);
    Reply(OnRst(e.conn, s), f.acks + d.acks + e.acks)
  }

  lemma HandleInTurn(c: Conn, s: Segment)
    ensures var f := OnFlags(c, s);
      var d := OnData(f.conn, s);
      var e := OnFin(d.conn, s);
      Handle(c, s) == Reply(if s.rst then e.conn.(phase := Closed, connected := false) else e.conn, f.acks + d.acks + e.acks)
  {
    hide OnFlags, OnData, OnFin;
  }

  /** Field by field what a segment does, whatever branches it takes. */
  lemma HandleByField(c: Conn, s: Segment)
    ensures var (r, opens) := (Handle(c, s), s.syn && s.ack && c.phase == SynSent);
      var takes := |s.data| > 0 && (opens || c.phase == Established);
      var rx := if takes then (s.seqNo + |s.data|) % 0x1_0000_0000
                else if opens then (s.seqNo + 1) % 0x1_0000_0000 else c.rxSeq;
      && r.conn.phase == (if s.rst then Closed else if s.fin then CloseWait else if opens then Established else c.phase)
      && r.conn.connected == (!s.rst && (opens || c.connected))
      && r.conn.remotePort == (if opens then s.srcPort else c.remotePort)
      && r.conn.txSeq == (if s.ack then s.ackNo else c.txSeq)
      && r.conn.rxSeq == (if s.fin then (rx + 1) % 0x1_0000_0000 else rx)
      && r.conn.ring == (if takes && |c.ring| + |s.data| < 8192 then c.ring + s.data else c.ring)
      && r.acks == (if opens then [(s.seqNo + 1) % 0x1_0000_0000] else [])
           + (if takes then [rx] else []) + (if s.fin then [(rx + 1) % 0x1_0000_0000] else [])
  {
  }

  /** The bytes of a ring buffer between tail and head, wrapping at its end. */
  function RingOf(s: seq<u8>, head: nat, tail: nat): seq<u8>
    requires head < |s| && tail < |s|
  {
    if head >= tail then s[tail..head] else s[tail..] + s[..head]
  }

  lemma RingLength(s: seq<u8>, head: nat, tail: nat)
    requires head < |s| && tail < |s|
    ensures |RingOf(s, head, tail)| == if head >= tail then head - tail else |s| - tail + head
  {
  }

  lemma RingPush(s: seq<u8>, head: nat, tail: nat, b: u8, next: nat)
    requires head < |s| && tail < |s| && next == (if head + 1 == |s| then 0 else head + 1) && next != tail
    ensures RingOf(s[head := b], next, tail) == RingOf(s, head, tail) + [b]
  {
  }

  lemma RingPop(s: seq<u8>, head: nat, tail: nat, next: nat)
    requires head < |s| && tail < |s| && head != tail && next == if tail + 1 == |s| then 0 else tail + 1
    ensures [s[tail]] + RingOf(s, head, next) == RingOf(s, head, tail)
  {
  }

  // ---- the socket -----------------------------------------------------------------------------

  class Sock {
    var kind: u8
    var remoteIp: u32
    var remotePort: u16
    var localPort: u16
    var phase: Phase
    var txSeq: u32
    var rxSeq: u32
    var connected: bool
    const buf: array<u8>
    var head: nat
    var tail: nat

    ghost predicate Valid()
      reads `head, `tail
    {
      buf.Length == RXBUF && head < RXBUF && tail < RXBUF
    }

    /** The bytes between tail and head, wrapping at the end of the buffer. */
    ghost function Ring(): seq<u8>
      requires Valid()
      reads `head, `tail, buf
    {
      RingOf(buf[..], head, tail)
    }

    ghost function Abs(): Conn
      requires Valid()
      reads this, buf
    {
      Conn(phase, connected, remotePort, txSeq, rxSeq, Ring())
    }

    /** sock_open and the first half of sock_connect. */
    constructor (ip: u32, port: u16, local: u16, seqNo: u32)
      ensures Valid() && fresh(buf)
      ensures Abs() == Conn(SynSent, false, port, seqNo, 0, []) && kind == SOCK_TCP && localPort == local && remoteIp == ip
      ensures kind == 0 && buf.Length == 8192
      ensures phase == SynSent && !connected && remotePort == port && txSeq == seqNo && rxSeq == 0 && Ring() == []
    {
      kind, remoteIp, remotePort, localPort := SOCK_TCP, ip, port, local;
      phase, txSeq, rxSeq, connected := SynSent, seqNo, 0, false;
      buf := new u8[RXBUF];
      head, tail := 0, 0;
    }

    /** rb_avail on this ring. */
    function Avail(): (n: nat)
      requires Valid()
      reads `head, `tail, buf
      ensures n == |Ring()| && n < RXBUF
    {
      if head >= tail then head - tail else RXBUF - tail + head
    }

    /** rb_push: `d` goes behind the bytes already in the ring. */
    method Push(d: seq<u8>)
      requires Valid() && |d| <= RXBUF - |Ring()| - 1
      modifies `head, buf
      ensures Valid() && Ring() == old(Ring()) + d
    {
      hide Ring;
      var i: nat := 0;
      while i < |d|
        invariant i <= |d| && Valid()
        invariant Ring() == old(Ring()) + d[..i]
      {
        PushOne(d[i]);
        assert d[..i + 1] == d[..i] + [d[i]];
        i := i + 1;
      }
      assert d[..i] == d;
    }

    method PushOne(b: u8)
      requires Valid() && |Ring()| < RXBUF - 1
      modifies `head, buf
      ensures Valid() && Ring() == old(Ring()) + [b]
    {
      hide RingOf;
      RingLength(buf[..], head, tail);
      RingPush(buf[..], head, tail, b, (head + 1) % RXBUF);
      buf[head] := b;
      head := (head + 1) % RXBUF;
    }

    method PopOne() returns (b: u8)
      requires Valid() && |Ring()| > 0
      modifies `tail
      ensures Valid() && [b] + Ring() == old(Ring())
    {
      hide RingOf;
      RingLength(buf[..], head, tail);
      RingPop(buf[..], head, tail, (tail + 1) % RXBUF);
      b := buf[tail];
      tail := (tail + 1) % RXBUF;
    }

    method AcceptFlags(s: Segment) returns (acks: seq<u32>)
      requires Valid()
      modifies `rxSeq, `txSeq, `phase, `connected, `remotePort
      ensures Reply(Abs(), acks) == OnFlags(old(Abs()), s)
    {
      acks := [];
      if s.syn && s.ack && phase == SynSent {
        rxSeq := Plus(s.seqNo, 1);
        txSeq := s.ackNo;
        phase := Established;
        connected := true;
        remotePort := s.srcPort;
        acks := [rxSeq];
      } else if s.ack {
        txSeq := s.ackNo;
      }
    }

    method AcceptData(s: Segment) returns (acks: seq<u32>)
      requires Valid()
      modifies `rxSeq, `head, buf
      ensures Valid() && Reply(Abs(), acks) == OnData(old(Abs()), s)
    {
      hide Ring;
      acks := [];
      if |s.data| > 0 && phase == Established {
        rxSeq := Plus(s.seqNo, |s.data|);
        var free := RXBUF - Avail() - 1;
        if |s.data| <= free { Push(s.data); }
        acks := [rxSeq];
      }
    }

    method AcceptFin(s: Segment) returns (acks: seq<u32>)
      requires Valid()
      modifies `rxSeq, `phase
      ensures Reply(Abs(), acks) == OnFin(old(Abs()), s)
    {
      acks := [];
      if s.fin {
        rxSeq := Plus(rxSeq, 1);
        acks := [rxSeq];
        phase := CloseWait;
      }
    }

    /** The body of tcp_handle for the matching socket. Returns the acknowledgement numbers sent. */
    method Accept(s: Segment) returns (acks: seq<u32>)
      requires Valid()
      modifies this, buf
      ensures Valid() && Reply(Abs(), acks) == Handle(old(Abs()), s)
      ensures kind == old(kind) && remoteIp == old(remoteIp) && localPort == old(localPort)
      ensures var opens := s.syn && s.ack && old(phase) == SynSent;
        var takes := |s.data| > 0 && (opens || old(phase) == Established);
        var rx := if takes then (s.seqNo + |s.data|) % 0x1_0000_0000
                  else if opens then (s.seqNo + 1) % 0x1_0000_0000 else old(rxSeq);
        && phase == (if s.rst then Closed else if s.fin then CloseWait else if opens then Established else old(phase))
        && connected == (!s.rst && (opens || old(connected)))
        && remotePort == (if opens then s.srcPort else old(remotePort))
        && txSeq == (if s.ack then s.ackNo else old(txSeq)) && rxSeq == (if s.fin then (rx + 1) % 0x1_0000_0000 else rx)
        && Ring() == (if takes && |old(Ring())| + |s.data| < 8192 then old(Ring()) + s.data else old(Ring()))
        && acks == (if opens then [(s.seqNo + 1) % 0x1_0000_0000] else [])
             + (if takes then [rx] else []) + (if s.fin then [(rx + 1) % 0x1_0000_0000] else [])
    {
      hide Handle, Valid, Ring;
      HandleByField(Abs(), s);
      acks := AcceptInTurn(s);
    }

    /** Flags, data, FIN and RST in the order of tcp_handle. */
    method AcceptInTurn(s: Segment) returns (acks: seq<u32>)
      requires Valid()
      modifies this, buf
      ensures Valid() && Reply(Abs(), acks) == Handle(old(Abs()), s)
      ensures kind == old(kind) && remoteIp == old(remoteIp) && localPort == old(localPort)
    {
      hide OnFlags, OnData, OnFin, Handle, Valid, Ring, RingOf;
      HandleInTurn(Abs(), s);
      var first := AcceptFlags(s);
      var second := AcceptData(s);
      var third := AcceptFin(s);
      if s.rst {
        phase := Closed;
        connected := false;
      }
      acks := first + second + third;
    }

    /** sock_recv behind the poll: up to `max` bytes leave the ring, oldest first. */
    method Recv(max: nat) returns (out: seq<u8>)
      requires Valid()
      modifies `tail
      ensures Valid() && out + Ring() == old(Ring())
      ensures |out| == if |old(Ring())| > max then max else |old(Ring())|
    {
      hide Ring, Valid;
      var avail := Avail();
      if avail > max { avail := max; }
      out := [];
      var i: nat := 0;
      while i < avail
        invariant i <= avail && Valid() && |out| == i && out + Ring() == old(Ring())
      {
        var b := PopOne();
        assert out + ([b] + Ring()) == (out + [b]) + Ring();
        out := out + [b];
        i := i + 1;
      }
    }

    /** The test by which tcp_handle picks a socket. */
    predicate Matches(s: Segment)
      reads this
    {
      kind == SOCK_TCP && localPort == s.dstPort && (remoteIp == 0 || remoteIp == s.srcIp)
    }
  }

  /** tcp_handle over the socket table: the first matching socket takes the segment, all others keep still. */
  method TcpHandle(socks: seq<Sock>, s: Segment) returns (at: nat, acks: seq<u32>)
    requires forall i, j :: 0 <= i < j < |socks| ==> socks[i] != socks[j] && socks[i].buf != socks[j].buf
    requires forall i :: 0 <= i < |socks| ==> socks[i].Valid()
    modifies socks, set i | 0 <= i < |socks| :: socks[i].buf
    ensures forall i :: 0 <= i < |socks| ==> socks[i].Valid()
    ensures at <= |socks| && (at == |socks| ==> acks == [])
    ensures forall i :: 0 <= i < at ==> !old(socks[i].kind == SOCK_TCP && socks[i].localPort == s.dstPort
                                              && (socks[i].remoteIp == 0 || socks[i].remoteIp == s.srcIp))
    ensures at < |socks| ==> old(socks[at].kind == SOCK_TCP && socks[at].localPort == s.dstPort
                                 && (socks[at].remoteIp == 0 || socks[at].remoteIp == s.srcIp))
    ensures at < |socks| ==> Reply(socks[at].Abs(), acks) == Handle(old(socks[at].Abs()), s)
    ensures forall i :: 0 <= i < |socks| && i != at ==> socks[i].Abs() == old(socks[i].Abs())
    ensures forall i :: (0 <= i < |socks|
      && old(socks[i].kind == SOCK_TCP && socks[i].localPort == s.dstPort)
      && old(socks[i].remoteIp == 0 || socks[i].remoteIp == s.srcIp)
      && (forall j :: 0 <= j < i ==> old(socks[j].localPort) != s.dstPort)) ==> at == i
    ensures forall i :: 0 <= i < |socks| ==>
      && socks[i].kind == old(socks[i].kind)
      && socks[i].localPort == old(socks[i].localPort) && socks[i].remoteIp == old(socks[i].remoteIp)
  {
    at := 0;
    while at < |socks|
      invariant at <= |socks| && forall i :: 0 <= i < at ==> !socks[i].Matches(s)
    {
      if socks[at].Matches(s) {
        acks := socks[at].Accept(s);
        return;
      }
      at := at + 1;
    }
    acks := [];
  }

  // ---- the byte stream of an in-order peer -------------------------------------------------------

  /** Segments arriving and reads by the client. */
  datatype Event = Arrive(s: Segment) | Read(max: nat)

  /** What the peer has sent so far: its initial sequence number once known, its payload, whether it closed. */
  datatype Peer = Peer(irs: u32, open: bool, sent: seq<u8>, closed: bool)

  /** The number that acknowledges all the peer has sent. */
  function Expected(p: Peer): u32 { Plus(p.irs, 1 + |p.sent| + if p.closed then 1 else 0) }

  /** The channel: the SYN-ACK first, alone and without data; then data in order, unduplicated and within the
      free ring space; nothing after the FIN but bare acknowledgements. */
  predicate InOrder(p: Peer, c: Conn, s: Segment) {
    && !s.rst && s.ack
    && (!p.open ==> s.syn && !s.fin && s.data == [])
    && (p.open ==> !s.syn && (s.data != [] || s.fin ==> s.seqNo == Expected(p) && !p.closed))
    && |s.data| <= RXBUF - |c.ring| - 1
  }

  function PeerSends(p: Peer, s: Segment): Peer {
    if !p.open then Peer(s.seqNo, true, [], false) else p.(sent := p.sent + s.data, closed := p.closed || s.fin)
  }

  /** Receiver and peer agree: read bytes and ring together are what was sent, and the receiver expects the next byte. */
  ghost predicate InStep(p: Peer, c: Conn, read: seq<u8>) {
    && read + c.ring == p.sent
    && (c.phase == SynSent <==> !p.open) && (!p.open ==> p.sent == [] && !p.closed)
    && (p.open ==> c.phase == (if p.closed then CloseWait else Established) && c.connected && c.rxSeq == Expected(p))
  }

  lemma PlusPlus(a: u32, m: nat, n: nat)
    ensures Plus(Plus(a, m), n) == Plus(a, m + n)
  {
  }

  /** The acknowledgements a segment calls for: of the SYN, of the payload up to its end, of the FIN. */
  function Owed(p: Peer, s: Segment): seq<u32> {
    if !p.open then [Plus(s.seqNo, 1)]
    else
      (if s.data != [] then [Plus(p.irs, 1 + |p.sent| + |s.data|)] else [])
      + if s.fin then [Plus(p.irs, 1 + |p.sent| + |s.data| + 1)] else []
  }

  /** One in-order segment: nothing is lost or repeated, and every acknowledgement sent says exactly what
      the peer has sent, one more after its FIN. */
  lemma SegmentKeepsStep(p: Peer, c: Conn, read: seq<u8>, s: Segment)
    requires InStep(p, c, read) && InOrder(p, c, s)
    ensures InStep(PeerSends(p, s), Handle(c, s).conn, read)
    ensures Handle(c, s).acks == Owed(p, s)
  {
    if p.open {
      PlusPlus(p.irs, 1 + |p.sent|, |s.data|);
      PlusPlus(p.irs, 1 + |p.sent| + |s.data|, 1);
      assert read + (c.ring + s.data) == (read + c.ring) + s.data;
      assert c.ring + [] == c.ring && p.sent + [] == p.sent;
    }
  }

  /** The whole session: peer, receiver, bytes read so far, acknowledgements sent so far. */
  datatype World = World(peer: Peer, conn: Conn, read: seq<u8>, acks: seq<u32>)

  function Take(c: Conn, max: nat): nat { if |c.ring| > max then max else |c.ring| }

  function Step(w: World, e: Event): World {
    match e
    case Arrive(s) =>
      var r := Handle(w.conn, s);
      World(PeerSends(w.peer, s), r.conn, w.read, w.acks + r.acks)
    case Read(max) =>
      var n := Take(w.conn, max);
      w.(conn := w.conn.(ring := w.conn.ring[n..]), read := w.read + w.conn.ring[..n])
  }

  predicate Admissible(w: World, e: Event) { e.Arrive? ==> InOrder(w.peer, w.conn, e.s) }

  function Run(w: World, es: seq<Event>): World
    decreases |es|
  {
    if es == [] then w else Run(Step(w, es[0]), es[1..])
  }

  predicate AllAdmissible(w: World, es: seq<Event>)
    decreases |es|
  {
    es == [] || (Admissible(w, es[0]) && AllAdmissible(Step(w, es[0]), es[1..]))
  }

  /** All acknowledgements a session calls for, told from the peer's side alone. */
  function AllOwed(p: Peer, es: seq<Event>): seq<u32>
    decreases |es|
  {
    if es == [] then []
    else match es[0]
      case Arrive(s) => Owed(p, s) + AllOwed(PeerSends(p, s), es[1..])
      case Read(_) => AllOwed(p, es[1..])
  }

  /** Over every session with an in-order peer, in any interleaving with reads: what was read followed by
      what the ring holds is exactly the peer's payload, the receiver expects the next byte, and the
      acknowledgements sent are exactly those owed: IRS + 1 + bytes received, one more after the FIN. */
  lemma {:induction false} StreamIsDelivered(w: World, es: seq<Event>)
    requires InStep(w.peer, w.conn, w.read) && AllAdmissible(w, es)
    ensures var r := Run(w, es); InStep(r.peer, r.conn, r.read) && r.acks == w.acks + AllOwed(w.peer, es)
    decreases |es|
  {
    hide Handle, Owed, PeerSends;
    if es != [] {
      match es[0] {
        case Arrive(s) =>
          SegmentKeepsStep(w.peer, w.conn, w.read, s);
        case Read(max) =>
          var n := Take(w.conn, max);
          assert w.conn.ring == w.conn.ring[..n] + w.conn.ring[n..];
          assert w.read + w.conn.ring == (w.read + w.conn.ring[..n]) + w.conn.ring[n..];
      }
      StreamIsDelivered(Step(w, es[0]), es[1..]);
    }
  }

  /** One event on the real socket is one step of the session. */
  method Play(sock: Sock, e: Event, ghost w: World) returns (acks: seq<u32>, out: seq<u8>)
    requires sock.Valid() && sock.Abs() == w.conn
    modifies sock, sock.buf
    ensures sock.Valid()
    ensures var n := Step(w, e); sock.Abs() == n.conn && n.acks == w.acks + acks && n.read == w.read + out
  {
    hide Handle, RingOf, Sock.Valid, Sock.Ring, Sock.Abs, Step;
    StepCases(w, e);
    acks, out := [], [];
    match e {
      case Arrive(s) => acks := PlayArrival(sock, s);
      case Read(max) => out := PlayRead(sock, max, w.conn);
    }
  }

  lemma StepCases(w: World, e: Event)
    ensures Step(w, e) == match e
      case Arrive(s) =>
        var r := Handle(w.conn, s);
        World(PeerSends(w.peer, s), r.conn, w.read, w.acks + r.acks)
      case Read(max) => w.(conn := AfterRead(w.conn, max), read := w.read + w.conn.ring[..Take(w.conn, max)])
    ensures w.acks + [] == w.acks && w.read + [] == w.read
  {
    hide Handle;
  }

  function AfterRead(c: Conn, max: nat): Conn { c.(ring := c.ring[Take(c, max)..]) }

  method PlayArrival(sock: Sock, s: Segment) returns (acks: seq<u32>)
    requires sock.Valid()
    modifies sock, sock.buf
    ensures sock.Valid() && Reply(sock.Abs(), acks) == Handle(old(sock.Abs()), s)
  {
    hide Handle, RingOf, Sock.Ring, Sock.Abs;
    acks := sock.Accept(s);
  }

  method PlayRead(sock: Sock, max: nat, ghost c: Conn) returns (out: seq<u8>)
    requires sock.Valid() && sock.Abs() == c
    modifies sock, sock.buf
    ensures sock.Valid() && sock.Abs() == AfterRead(c, max) && out == c.ring[..Take(c, max)]
    ensures sock.kind == old(sock.kind) && sock.localPort == old(sock.localPort) && sock.remoteIp == old(sock.remoteIp)
  {
    hide RingOf, Sock.Ring, Sock.Valid;
    out := sock.Recv(max);
    FrontAndBack(out, sock.Ring(), c.ring);
  }

  lemma FrontAndBack(a: seq<u8>, b: seq<u8>, s: seq<u8>)
    requires a + b == s
    ensures a == s[..|a|] && b == s[|a|..]
  {
  }

  /** The peer after the events. */
  function PeerAfter(p: Peer, es: seq<Event>): Peer
    decreases |es|
  {
    if es == [] then p else PeerAfter(if es[0].Arrive? then PeerSends(p, es[0].s) else p, es[1..])
  }

  lemma {:induction false} RunPeer(w: World, es: seq<Event>)
    ensures Run(w, es).peer == PeerAfter(w.peer, es)
    decreases |es|
  {
    hide Handle, PeerSends;
    if es != [] { RunPeer(Step(w, es[0]), es[1..]); }
  }

  function Start(c: Conn): World { World(Peer(0, false, [], false), c, [], []) }

  lemma NextEvent(w: World, es: seq<Event>, i: nat)
    requires i < |es| && AllAdmissible(w, es[i..])
    ensures AllAdmissible(Step(w, es[i]), es[i + 1..]) && Run(w, es[i..]) == Run(Step(w, es[i]), es[i + 1..])
  {
    assert es[i..][1..] == es[i + 1..];
  }

  /** A whole session on the real socket, opened by sock_connect, with an in-order peer: the bytes handed to the
      client and those still in the buffer are the peer's payload, and the acknowledgements sent are those owed. */
  method Session(sock: Sock, es: seq<Event>) returns (acks: seq<u32>, out: seq<u8>)
    requires sock.Valid() && sock.phase == SynSent && sock.Ring() == [] && AllAdmissible(Start(sock.Abs()), es)
    modifies sock, sock.buf
    ensures sock.Valid()
    ensures var p := PeerAfter(Peer(0, false, [], false), es);
      out + sock.Ring() == p.sent && (p.open ==> sock.rxSeq == Expected(p))
    ensures acks == AllOwed(Peer(0, false, [], false), es)
  {
    hide Step, AllAdmissible, Run, AllOwed, PeerAfter;
    ghost var start := Start(sock.Abs());
    ghost var w := start;
    var i: nat := 0;
    acks, out := [], [];
    assert es[0..] == es;
    while i < |es|
      invariant i <= |es| && sock.Valid() && sock.Abs() == w.conn && acks == w.acks && out == w.read
      invariant AllAdmissible(w, es[i..]) && Run(w, es[i..]) == Run(start, es)
    {
      NextEvent(w, es, i);
      var a, o := Play(sock, es[i], w);
      acks, out := acks + a, out + o;
      w := Step(w, es[i]);
      i := i + 1;
    }
    assert es[i..] == [];
    RunNothing(w);
    StreamIsDelivered(start, es);
    RunPeer(start, es);
  }

  // ---- many peers on one socket table --------------------------------------------------------------

  /** A segment from the network, or the client of socket `i` reading. */
  datatype TableEvent = Incoming(s: Segment) | ReadFrom(i: nat, max: nat)

  /** Where a socket listens: its port, and the one address it accepts segments from, 0 for all. */
  datatype Address = Address(port: u16, ip: u32)

  /** The session of socket `i`, told from the events of all. */
  function Mine(a: Address, i: nat, es: seq<TableEvent>): seq<Event> {
    if es == [] then [] else Own(a, i, es[0]) + Mine(a, i, es[1..])
  }

  function Own(a: Address, i: nat, e: TableEvent): seq<Event> {
    match e
    case Incoming(s) => if a.port == s.dstPort && (a.ip == 0 || a.ip == s.srcIp) then [Arrive(s)] else []
    case ReadFrom(j, max) => if i == j then [Read(max)] else []
  }

  /** The world of a socket after an event on the table. */
  function OwnStep(w: World, a: Address, i: nat, e: TableEvent): World {
    if Own(a, i, e) == [] then w else Step(w, Own(a, i, e)[0])
  }

  lemma MineNext(w: World, a: Address, i: nat, es: seq<TableEvent>, k: nat)
    requires k < |es| && AllAdmissible(w, Mine(a, i, es[k..]))
    ensures var v := OwnStep(w, a, i, es[k]);
      AllAdmissible(v, Mine(a, i, es[k + 1..])) && Run(w, Mine(a, i, es[k..])) == Run(v, Mine(a, i, es[k + 1..]))
  {
    hide Step;
    assert es[k..][1..] == es[k + 1..];
    var own, rest := Own(a, i, es[k]), Mine(a, i, es[k + 1..]);
    assert Mine(a, i, es[k..]) == own + rest;
    if own == [] { assert own + rest == rest; } else { assert (own + rest)[0] == own[0] && (own + rest)[1..] == rest; }
  }

  ghost function Bufs(socks: seq<Sock>): set<array<u8>> { set i | 0 <= i < |socks| :: socks[i].buf }

  /** TCP sockets of their own memory, listening on different ports, at these addresses. */
  ghost predicate Listening(socks: seq<Sock>, at: seq<Address>)
    reads socks
  {
    && |socks| == |at|
    && (forall i, j :: 0 <= i < j < |socks| ==>
      socks[i] != socks[j] && socks[i].buf != socks[j].buf && at[i].port != at[j].port)
    && forall i :: 0 <= i < |socks| ==>
      socks[i].kind == SOCK_TCP && socks[i].localPort == at[i].port && socks[i].remoteIp == at[i].ip
  }

  lemma {:induction false} Starts(socks: seq<Sock>, k: nat) returns (ws: seq<World>)
    requires k <= |socks| && forall i :: 0 <= i < |socks| ==> socks[i].Valid()
    ensures |ws| == k && forall i :: 0 <= i < k ==> ws[i] == Start(socks[i].Abs())
    decreases k
  {
    hide Sock.Valid, Sock.Abs;
    ws := [];
    if k > 0 {
      ws := Starts(socks, k - 1);
      ws := ws + [Start(socks[k - 1].Abs())];
    }
  }

  ghost predicate InWorlds(socks: seq<Sock>, ws: seq<World>)
    reads socks, Bufs(socks)
  {
    |socks| == |ws| && forall i :: 0 <= i < |socks| ==> socks[i].Valid() && socks[i].Abs() == ws[i].conn
  }

  /** What one socket of the table has taken from an event. */
  ghost predicate Took(w: World, v: World, mine: bool, acks: seq<u32>, out: seq<u8>) {
    v.acks == (if mine then w.acks + acks else w.acks) && v.read == (if mine then w.read + out else w.read)
  }

  ghost function Stepped(ws: seq<World>, at: seq<Address>, e: TableEvent): (vs: seq<World>)
    requires |ws| == |at|
    ensures |vs| == |ws| && forall i :: 0 <= i < |ws| ==> vs[i] == OwnStep(ws[i], at[i], i, e)
  {
    seq(|ws|, i requires 0 <= i < |ws| => OwnStep(ws[i], at[i], i, e))
  }

  /** After `k` events every socket is on the way of its own session. */
  ghost predicate Along(ws: seq<World>, starts: seq<World>, at: seq<Address>, es: seq<TableEvent>, k: nat) {
    && |ws| == |starts| == |at| && k <= |es|
    && forall i :: 0 <= i < |ws| ==>
      && AllAdmissible(ws[i], Mine(at[i], i, es[k..]))
      && Run(ws[i], Mine(at[i], i, es[k..])) == Run(starts[i], Mine(at[i], i, es))
  }

  lemma AlongStart(ws: seq<World>, at: seq<Address>, es: seq<TableEvent>)
    requires |ws| == |at| && forall i :: 0 <= i < |ws| ==> AllAdmissible(ws[i], Mine(at[i], i, es))
    ensures Along(ws, ws, at, es, 0)
  {
    assert es[0..] == es;
  }

  lemma AlongNext(ws: seq<World>, starts: seq<World>, at: seq<Address>, es: seq<TableEvent>, k: nat)
    requires Along(ws, starts, at, es, k) && k < |es|
    ensures Along(Stepped(ws, at, es[k]), starts, at, es, k + 1)
  {
    hide OwnStep, Mine, AllAdmissible, Run;
    forall i | 0 <= i < |ws|
      ensures AllAdmissible(OwnStep(ws[i], at[i], i, es[k]), Mine(at[i], i, es[k + 1..]))
      ensures Run(OwnStep(ws[i], at[i], i, es[k]), Mine(at[i], i, es[k + 1..])) == Run(starts[i], Mine(at[i], i, es))
    {
      MineNext(ws[i], at[i], i, es, k);
    }
  }

  /** What was acknowledged and handed out on each socket. */
  ghost predicate Heard(ws: seq<World>, acks: seq<seq<u32>>, outs: seq<seq<u8>>) {
    |acks| == |outs| == |ws| && forall i :: 0 <= i < |ws| ==> acks[i] == ws[i].acks && outs[i] == ws[i].read
  }

  lemma HeardNext(ws: seq<World>, vs: seq<World>, acks: seq<seq<u32>>, outs: seq<seq<u8>>, k: nat, a: seq<u32>, o: seq<u8>)
    requires Heard(ws, acks, outs) && |vs| == |ws| && k <= |ws|
    requires forall i :: 0 <= i < |ws| ==> Took(ws[i], vs[i], i == k, a, o)
    ensures if k == |ws| then Heard(vs, acks, outs)
            else Heard(vs, acks[k := acks[k] + a], outs[k := outs[k] + o])
  {
  }

  /** One event on the whole table: the socket it is for takes one step of its session, the others none. */
  method PlayTable(socks: seq<Sock>, e: TableEvent, ghost at: seq<Address>, ghost ws: seq<World>)
    returns (k: nat, acks: seq<u32>, out: seq<u8>)
    requires Listening(socks, at) && InWorlds(socks, ws)
    modifies socks, Bufs(socks)
    ensures Listening(socks, at) && k <= |socks|
    ensures InWorlds(socks, Stepped(ws, at, e))
    ensures forall i :: 0 <= i < |ws| ==> Took(ws[i], Stepped(ws, at, e)[i], i == k, acks, out)
  {
    hide RingOf, Handle, Sock.Ring, Step;
    acks, out := [], [];
    match e {
      case Incoming(s) =>
        k, acks := TcpHandle(socks, s);
        forall i | 0 <= i < |ws|
          ensures socks[i].Abs() == OwnStep(ws[i], at[i], i, e).conn
          ensures Took(ws[i], OwnStep(ws[i], at[i], i, e), i == k, acks, out)
        {
          StepCases(ws[i], Arrive(s));
        }
      case ReadFrom(i, max) =>
        k := |socks|;
        if i < |socks| {
          k := i;
          out := PlayRead(socks[i], max, ws[i].conn);
          StepCases(ws[i], Read(max));
        }
    }
  }

  /** Any number of in-order peers on one socket table, their segments and the clients' reads interleaved in any way,
      and segments for nobody among them: every client gets exactly its own peer's payload, in order, and every peer
      the acknowledgements it is owed. */
  method TableSession(socks: seq<Sock>, at: seq<Address>, es: seq<TableEvent>)
    returns (acks: seq<seq<u32>>, outs: seq<seq<u8>>)
    requires Listening(socks, at)
    requires forall i :: 0 <= i < |socks| ==> socks[i].Valid() && socks[i].phase == SynSent && socks[i].Ring() == []
    requires forall i :: 0 <= i < |socks| ==> AllAdmissible(Start(socks[i].Abs()), Mine(at[i], i, es))
    modifies socks, Bufs(socks)
    ensures |acks| == |outs| == |socks|
    ensures forall i :: 0 <= i < |socks| ==>
      && socks[i].Valid() && acks[i] == AllOwed(Peer(0, false, [], false), Mine(at[i], i, es))
      && outs[i] + socks[i].Ring() == PeerAfter(Peer(0, false, [], false), Mine(at[i], i, es)).sent
  {
    hide RingOf, Sock.Ring, OwnStep, Mine, AllAdmissible, Run, AllOwed, PeerAfter, Sock.Valid, Along, Heard, Took;
    ghost var starts := Starts(socks, |socks|);
    ghost var ws := starts;
    acks, outs := seq(|socks|, _ => []), seq(|socks|, _ => []);
    var k: nat := 0;
    AlongStart(starts, at, es);
    assert Heard(ws, acks, outs) by { NothingHeard(ws, acks, outs); }
    while k < |es|
      invariant k <= |es| && Along(ws, starts, at, es, k) && Heard(ws, acks, outs)
      invariant |acks| == |outs| == |ws| == |socks| && Listening(socks, at) && InWorlds(socks, ws)
    {
      var j, a, o := PlayTable(socks, es[k], at, ws);
      AlongNext(ws, starts, at, es, k);
      HeardNext(ws, Stepped(ws, at, es[k]), acks, outs, j, a, o);
      if j < |socks| { acks, outs := acks[j := acks[j] + a], outs[j := outs[j] + o]; }
      ws := Stepped(ws, at, es[k]);
      k := k + 1;
    }
    forall i | 0 <= i < |socks|
      ensures acks[i] == AllOwed(Peer(0, false, [], false), Mine(at[i], i, es))
      ensures outs[i] + socks[i].Ring() == PeerAfter(Peer(0, false, [], false), Mine(at[i], i, es)).sent
    {
      DeliveredAt(starts, ws, at, es, k, acks, outs, i);
    }
  }

  lemma NothingHeard(ws: seq<World>, acks: seq<seq<u32>>, outs: seq<seq<u8>>)
    requires |acks| == |outs| == |ws|
    requires forall i :: 0 <= i < |ws| ==> acks[i] == ws[i].acks == [] && outs[i] == ws[i].read == []
    ensures Heard(ws, acks, outs)
  {
  }

  lemma DeliveredAt(starts: seq<World>, ws: seq<World>, at: seq<Address>, es: seq<TableEvent>, k: nat,
                    acks: seq<seq<u32>>, outs: seq<seq<u8>>, i: nat)
    requires Along(ws, starts, at, es, k) && k == |es| && Heard(ws, acks, outs) && i < |ws|
    requires starts[i] == Start(starts[i].conn) && starts[i].conn.phase == SynSent && starts[i].conn.ring == []
    requires AllAdmissible(starts[i], Mine(at[i], i, es))
    ensures acks[i] == AllOwed(Peer(0, false, [], false), Mine(at[i], i, es))
    ensures outs[i] + ws[i].conn.ring == PeerAfter(Peer(0, false, [], false), Mine(at[i], i, es)).sent
  {
    Delivered(starts[i], ws[i], at[i], i, es, k);
  }

  lemma Delivered(start: World, w: World, a: Address, i: nat, es: seq<TableEvent>, k: nat)
    requires k == |es| && AllAdmissible(start, Mine(a, i, es)) && Run(w, Mine(a, i, es[k..])) == Run(start, Mine(a, i, es))
    requires start == Start(start.conn) && start.conn.phase == SynSent && start.conn.ring == []
    ensures w.acks == AllOwed(Peer(0, false, [], false), Mine(a, i, es))
    ensures w.read + w.conn.ring == PeerAfter(Peer(0, false, [], false), Mine(a, i, es)).sent
  {
    assert es[k..] == [];
    RunNothing(w);
    StreamIsDelivered(start, Mine(a, i, es));
    RunPeer(start, Mine(a, i, es));
  }

  lemma RunNothing(w: World)
    ensures Run(w, []) == w
  {
  }

  // ---- what the channel assumptions are needed for -------------------------------------------------

  /** A data segment on an open connection is always acknowledged in full, but its bytes are kept exactly
      when they fit the free ring space. */
  lemma AckedDataKeptOnlyIfItFits(c: Conn, s: Segment)
    requires c.phase == Established && s.data != [] && |c.ring| < RXBUF
    ensures var a := Plus(s.seqNo, |s.data|); Handle(c, s).acks == [a] + if s.fin then [Plus(a, 1)] else []
    ensures Handle(c, s).conn.ring == c.ring + s.data <==> |c.ring| + |s.data| < RXBUF
    ensures |c.ring| + |s.data| >= RXBUF ==> Handle(c, s).conn.ring == c.ring
  {
  }

  /** Data on the SYN-ACK: the sequence number the SYN takes is forgotten, so the acknowledgement is right
      exactly when there is no data. */
  lemma SynAckAcknowledgedRightOnlyWithoutData(c: Conn, s: Segment)
    requires c.phase == SynSent && s.syn && s.ack
    ensures Handle(c, s).conn.rxSeq == Plus(s.seqNo, 1 + |s.data| + if s.fin then 1 else 0) <==> s.data == []
  {
    PlusPlus(s.seqNo, |s.data|, 1);
    PlusPlus(s.seqNo, 1, 1);
    if s.data != [] {
      PlusDiffers(s.seqNo, |s.data|);
      PlusDiffers(s.seqNo, |s.data| + 1);
    }
  }

  lemma PlusDiffers(a: u32, n: nat)
    ensures Plus(a, n) != Plus(a, n + 1)
  {
  }

  /** Sequence numbers are not compared: when a data segment arrives a second time, the ring stays as it is
      exactly when the segment has closed the connection or does not fit; otherwise its bytes are there twice. */
  lemma DuplicateIgnoredOnlyWithoutRoom(c: Conn, s: Segment)
    requires c.phase == Established && s.data != [] && |c.ring| < RXBUF
    ensures var d := Handle(c, s).conn;
      && (Handle(d, s).conn.ring == d.ring <==> s.fin || s.rst || |d.ring| + |s.data| >= RXBUF)
      && (Handle(d, s).conn.ring != d.ring ==> Handle(d, s).conn.ring == c.ring + s.data + s.data)
  {
  }
}
