// Two hosts that run net.c over a link that may lose, repeat and reorder frames.  Their cards let in
// frames to their own MAC address, which the driver reads from R_RAL0 and R_RAH0, and broadcasts, for
// which it sets RCTL_BAM (e1000.c).
module NetWorld {
  import opened Options
  import opened Bytes
  import opened Net

  // A host, with the echo requests it has sent: to whom, and with which id and sequence number.
  datatype Host = Host(ip: Ip, mac: Mac, table: Table, asked: set<(Ip, word, word)>)

  // A frame once sent may arrive any number of times, at any time, or never, at the hosts whose
  // card lets it through.
  datatype World = World(a: Host, b: Host, wire: set<seq<byte>>)

  datatype Side = A | B

  datatype Step =
    | AskAddress(s: Side, target: Ip)
    | AskEcho(s: Side, target: Ip, id: word, sq: word)
    | Receive(s: Side, frame: seq<byte>, pad: seq<byte>)

  function HostOf(w: World, s: Side): Host { if s.A? then w.a else w.b }

  function WithHost(w: World, s: Side, h: Host): World {
    if s.A? then w.(a := h) else w.(b := h)
  }

  // What the card lets through: frames addressed to it, and broadcasts.
  predicate Accepts(mac: Mac, f: seq<byte>) {
    |f| >= 6 && (f[0..6] == mac || f[0..6] == [0xFF, 0xFF, 0xFF, 0xFF, 0xFF, 0xFF])
  }

  function Take(w: World, step: Step): World {
    var h := HostOf(w, step.s);
    match step
    case AskAddress(s, target) => w.(wire := w.wire + {ArpFrame(1, BROADCAST, h.mac, h.ip, target)})
    case AskEcho(s, target, id, sq) =>
      var m := Find(h.table, target);
      if m.None? then w
      else
        WithHost(w, s, h.(asked := h.asked + {(target, id, sq)})).(
          wire := w.wire + {IcmpFrame(m.value, h.mac, h.ip, target, id, sq, 8)})
    case Receive(s, frame, pad) =>
      if frame !in w.wire || !Accepts(h.mac, frame) then w
      else
        var r := Poll(h.ip, h.mac, h.table, frame + pad);
        WithHost(w, s, h.(table := r.table)).(wire := w.wire + if r.sent.Some? then {r.sent.value} else {})
  }

  function Run(w: World, steps: seq<Step>): World
    decreases |steps|
  {
    if steps == [] then w else Run(Take(w, steps[0]), steps[1..])
  }

  function Start(ipA: Ip, macA: Mac, ipB: Ip, macB: Mac): World {
    World(Host(ipA, macA, EMPTY_TABLE, {}), Host(ipB, macB, EMPTY_TABLE, {}), {})
  }

  // ----- what every frame and every table entry is -----

  datatype Packet =
    | ArpPacket(src: Side, op: byte, dst: Mac, target: Ip)
    | EchoPacket(src: Side, dst: Mac, target: Ip, id: word, sq: word)
    | ReplyPacket(src: Side, dst: Mac, to: Side, id: word, sq: word)

  function FrameOf(w: World, p: Packet): seq<byte> {
    var h := HostOf(w, p.src);
    match p
    case ArpPacket(_, op, dst, target) => ArpFrame(op, dst, h.mac, h.ip, target)
    case EchoPacket(_, dst, target, id, sq) => IcmpFrame(dst, h.mac, h.ip, target, id, sq, 8)
    case ReplyPacket(_, dst, to, id, sq) => IcmpFrame(dst, h.mac, h.ip, HostOf(w, to).ip, id, sq, 0)
  }

  // A request was made by its sender; a reply was asked for by its addressee.
  predicate Truthful(w: World, p: Packet) {
    match p
    case ArpPacket(_, _, _, _) => true
    case EchoPacket(src, _, target, id, sq) => (target, id, sq) in HostOf(w, src).asked
    case ReplyPacket(src, _, to, id, sq) => (HostOf(w, src).ip, id, sq) in HostOf(w, to).asked
  }

  predicate TrueEntry(w: World, e: Entry) {
    e.used ==> (e.ip == w.a.ip && e.mac == w.a.mac) || (e.ip == w.b.ip && e.mac == w.b.mac)
  }

  predicate TrueTable(w: World, t: Table) {
    forall k :: 0 <= k < |t| ==> TrueEntry(w, t[k])
  }

  ghost predicate Inv(w: World) {
    && w.a.ip != w.b.ip
    && TrueTable(w, w.a.table) && TrueTable(w, w.b.table) && Distinct(w.a.table) && Distinct(w.b.table)
    && forall f :: f in w.wire ==> exists p: Packet :: f == FrameOf(w, p) && Truthful(w, p)
  }

  // Later worlds have the same addresses, and remember what was asked.
  predicate Later(w: World, w': World) {
    && w'.a.ip == w.a.ip && w'.a.mac == w.a.mac && w'.b.ip == w.b.ip && w'.b.mac == w.b.mac
    && w.a.asked <= w'.a.asked && w.b.asked <= w'.b.asked
  }

  lemma WireLater(w: World, w': World, p: Packet)
    requires Inv(w) && Later(w, w') && Truthful(w', p) && w'.wire <= w.wire + {FrameOf(w', p)}
    ensures forall f :: f in w'.wire ==> exists q: Packet :: f == FrameOf(w', q) && Truthful(w', q)
  {
    forall f | f in w'.wire ensures exists q: Packet :: f == FrameOf(w', q) && Truthful(w', q) {
      if f in w.wire {
        var q: Packet :| f == FrameOf(w, q) && Truthful(w, q);
        assert f == FrameOf(w', q) && Truthful(w', q);
      } else {
        assert f == FrameOf(w', p);
      }
    }
  }

  lemma LearnTrue(w: World, t: Table, ip: Ip, mac: Mac)
    requires TrueTable(w, t) && Distinct(t) && TrueEntry(w, Entry(true, ip, mac))
    ensures TrueTable(w, Learn(t, ip, mac)) && Distinct(Learn(t, ip, mac))
  {
    LearnThenFind(t, ip, mac, ip);
  }

  // What a host makes of a truthful frame.
  lemma PollTruthful(w: World, s: Side, p: Packet, pad: seq<byte>) returns (q: Packet)
    requires Inv(w) && Truthful(w, p)
    ensures var h := HostOf(w, s);
      var r := Poll(h.ip, h.mac, h.table, FrameOf(w, p) + pad);
      && TrueTable(w, r.table) && Distinct(r.table)
      && (r.sent.Some? ==> r.sent.value == FrameOf(w, q) && Truthful(w, q))
      && (r.code == 3 ==> p.ReplyPacket? && p.to == s && r.id == p.id && r.sq == p.sq)
  {
    var h, g := HostOf(w, s), HostOf(w, p.src);
    LearnTrue(w, h.table, g.ip, g.mac);
    match p
    case ArpPacket(_, op, dst, target) =>
      ArpFields(op, dst, g.mac, g.ip, target, pad);
      q := ArpPacket(s, 2, g.mac, g.ip);
    case EchoPacket(src, dst, target, id, sq) =>
      IcmpFields(dst, g.mac, g.ip, target, id, sq, 8, pad);
      q := ReplyPacket(s, g.mac, src, id, sq);
    case ReplyPacket(src, dst, to, id, sq) =>
      IcmpFields(dst, g.mac, g.ip, HostOf(w, to).ip, id, sq, 0, pad);
      q := p;
  }

  lemma AskEchoInv(w: World, s: Side, target: Ip, id: word, sq: word)
    requires Inv(w)
    ensures var w' := Take(w, AskEcho(s, target, id, sq)); Inv(w') && Later(w, w')
  {
    var h, w' := HostOf(w, s), Take(w, AskEcho(s, target, id, sq));
    var m := Find(h.table, target);
    if m.Some? {
      WireLater(w, w', EchoPacket(s, m.value, target, id, sq));
    }
  }

  // A host gets another true table, and perhaps sends a truthful frame.
  lemma Received(w: World, s: Side, t: Table, q: Packet, sent: set<seq<byte>>)
    requires Inv(w) && TrueTable(w, t) && Distinct(t) && Truthful(w, q) && sent <= {FrameOf(w, q)}
    ensures var w' := WithHost(w, s, HostOf(w, s).(table := t)).(wire := w.wire + sent);
      Inv(w') && Later(w, w')
  {
    var w' := WithHost(w, s, HostOf(w, s).(table := t)).(wire := w.wire + sent);
    assert FrameOf(w', q) == FrameOf(w, q);
    WireLater(w, w', q);
  }

  lemma ReceiveInv(w: World, s: Side, frame: seq<byte>, pad: seq<byte>)
    requires Inv(w)
    ensures var w' := Take(w, Receive(s, frame, pad)); Inv(w') && Later(w, w')
  {
    var h := HostOf(w, s);
    if frame in w.wire && Accepts(h.mac, frame) {
      var p: Packet :| frame == FrameOf(w, p) && Truthful(w, p);
      var q := PollTruthful(w, s, p, pad);
      var r := Poll(h.ip, h.mac, h.table, frame + pad);
      Received(w, s, r.table, if r.sent.Some? then q else ArpPacket(s, 1, BROADCAST, h.ip),
               if r.sent.Some? then {r.sent.value} else {});
    }
  }

  lemma StepInv(w: World, step: Step)
    requires Inv(w)
    ensures Inv(Take(w, step)) && Later(w, Take(w, step))
  {
    match step
    case AskAddress(s, target) => WireLater(w, Take(w, step), ArpPacket(s, 1, BROADCAST, target));
    case AskEcho(s, target, id, sq) => AskEchoInv(w, s, target, id, sq);
    case Receive(s, frame, pad) => ReceiveInv(w, s, frame, pad);
  }

  lemma {:induction false} RunInv(w: World, steps: seq<Step>)
    requires Inv(w)
    ensures Inv(Run(w, steps)) && Later(w, Run(w, steps))
    decreases |steps|
  {
    if steps != [] {
      StepInv(w, steps[0]);
      RunInv(Take(w, steps[0]), steps[1..]);
    }
  }

  lemma Reachable(w0: World, ipA: Ip, macA: Mac, ipB: Ip, macB: Mac, steps: seq<Step>)
    requires ipA != ipB && w0 == Start(ipA, macA, ipB, macB)
    ensures Inv(Run(w0, steps)) && Later(w0, Run(w0, steps))
  {
    RunInv(w0, steps);
  }

  // After any run, every address a host finds is the true one of a host.
  lemma AddressesAreTrue(ipA: Ip, macA: Mac, ipB: Ip, macB: Mac, steps: seq<Step>, s: Side, ip: Ip)
    requires ipA != ipB
    ensures var m := Find(HostOf(Run(Start(ipA, macA, ipB, macB), steps), s).table, ip);
      m.None? || (ip == ipA && m.value == macA) || (ip == ipB && m.value == macB)
  {
    Reachable(Start(ipA, macA, ipB, macB), ipA, macA, ipB, macB, steps);
  }

  // After any run, if a frame makes net_poll_one report an echo reply (3), then the host that
  // receives it did send a request with that id and sequence number, to the other host or itself.
  lemma RepliesWereAskedFor(ipA: Ip, macA: Mac, ipB: Ip, macB: Mac, steps: seq<Step>, s: Side,
                            frame: seq<byte>, pad: seq<byte>)
    requires ipA != ipB
    requires frame in Run(Start(ipA, macA, ipB, macB), steps).wire
    ensures var h := HostOf(Run(Start(ipA, macA, ipB, macB), steps), s);
      var r := Poll(h.ip, h.mac, h.table, frame + pad);
      r.code == 3 ==> (ipA, r.id, r.sq) in h.asked || (ipB, r.id, r.sq) in h.asked
  {
    var w := Run(Start(ipA, macA, ipB, macB), steps);
    Reachable(Start(ipA, macA, ipB, macB), ipA, macA, ipB, macB, steps);
    var p: Packet :| frame == FrameOf(w, p) && Truthful(w, p);
    var q := PollTruthful(w, s, p, pad);
  }

  // What a host makes of each kind of frame that is meant for it.
  lemma AnswersAsking(ip: Ip, mac: Mac, t: Table, peer: Ip, peerMac: Mac)
    ensures Accepts(mac, ArpFrame(1, BROADCAST, peerMac, peer, ip))
    ensures Poll(ip, mac, t, ArpFrame(1, BROADCAST, peerMac, peer, ip))
      == Response(1, Learn(t, peer, peerMac), Some(ArpFrame(2, peerMac, mac, ip, peer)), 0, 0)
  {
    var f := ArpFrame(1, BROADCAST, peerMac, peer, ip);
    ArpFields(1, BROADCAST, peerMac, peer, ip, []);
    assert f + [] == f;
  }

  lemma LearnsFromAnswer(ip: Ip, mac: Mac, t: Table, peer: Ip, peerMac: Mac)
    ensures Accepts(mac, ArpFrame(2, mac, peerMac, peer, ip))
    ensures Poll(ip, mac, t, ArpFrame(2, mac, peerMac, peer, ip)) == Response(1, Learn(t, peer, peerMac), None, 0, 0)
  {
    var f := ArpFrame(2, mac, peerMac, peer, ip);
    ArpFields(2, mac, peerMac, peer, ip, []);
    assert f + [] == f;
  }

  lemma AnswersEcho(ip: Ip, mac: Mac, t: Table, peer: Ip, peerMac: Mac, id: word, sq: word)
    ensures Accepts(mac, IcmpFrame(mac, peerMac, peer, ip, id, sq, 8))
    ensures Poll(ip, mac, t, IcmpFrame(mac, peerMac, peer, ip, id, sq, 8))
      == Response(2, Learn(t, peer, peerMac), Some(IcmpFrame(peerMac, mac, ip, peer, id, sq, 0)), 0, 0)
  {
    var f := IcmpFrame(mac, peerMac, peer, ip, id, sq, 8);
    IcmpFields(mac, peerMac, peer, ip, id, sq, 8, []);
    assert f + [] == f;
  }

  lemma ReportsReply(ip: Ip, mac: Mac, t: Table, peer: Ip, peerMac: Mac, id: word, sq: word)
    ensures Accepts(mac, IcmpFrame(mac, peerMac, peer, ip, id, sq, 0))
    ensures Poll(ip, mac, t, IcmpFrame(mac, peerMac, peer, ip, id, sq, 0))
      == Response(3, Learn(t, peer, peerMac), None, id, sq)
  {
    var f := IcmpFrame(mac, peerMac, peer, ip, id, sq, 0);
    IcmpFields(mac, peerMac, peer, ip, id, sq, 0, []);
    assert f + [] == f;
  }

  // One host can reach the other from any reachable world: when its question for the address and
  // the answer arrive, and then its echo request and the reply, it is told of its reply.  Each of
  // the four frames is let through by the card of the host that it is meant for.
  lemma PingSucceeds(w: World, id: word, sq: word)
    requires Inv(w)
    ensures var w1 := Take(w, AskAddress(A, w.b.ip));
      var w2 := Take(w1, Receive(B, ArpFrame(1, BROADCAST, w.a.mac, w.a.ip, w.b.ip), []));
      var w3 := Take(w2, Receive(A, ArpFrame(2, w.a.mac, w.b.mac, w.b.ip, w.a.ip), []));
      var w4 := Take(w3, AskEcho(A, w.b.ip, id, sq));
      var w5 := Take(w4, Receive(B, IcmpFrame(w.b.mac, w.a.mac, w.a.ip, w.b.ip, id, sq, 8), []));
      var reply := IcmpFrame(w.a.mac, w.b.mac, w.b.ip, w.a.ip, id, sq, 0);
      && reply in w5.wire && Accepts(w5.a.mac, reply)
      && var r := Poll(w5.a.ip, w5.a.mac, w5.a.table, reply);
      && r.code == 3 && r.id == id && r.sq == sq
  {
    var w2 := AddressAnswered(w);
    var w3 := AnswerTaken(w2);
    EchoReturns(w3, id, sq);
  }

  lemma AddressAnswered(w: World) returns (w2: World)
    ensures w2 == Take(Take(w, AskAddress(A, w.b.ip)), Receive(B, ArpFrame(1, BROADCAST, w.a.mac, w.a.ip, w.b.ip), []))
    ensures w2.a == w.a && w2.b.ip == w.b.ip && w2.b.mac == w.b.mac
    ensures ArpFrame(2, w.a.mac, w.b.mac, w.b.ip, w.a.ip) in w2.wire
  {
    var ask := ArpFrame(1, BROADCAST, w.a.mac, w.a.ip, w.b.ip);
    assert ask + [] == ask;
    AnswersAsking(w.b.ip, w.b.mac, w.b.table, w.a.ip, w.a.mac);
    w2 := Take(Take(w, AskAddress(A, w.b.ip)), Receive(B, ask, []));
  }

  lemma AnswerTaken(w: World) returns (w3: World)
    requires Distinct(w.a.table) && ArpFrame(2, w.a.mac, w.b.mac, w.b.ip, w.a.ip) in w.wire
    ensures w3 == Take(w, Receive(A, ArpFrame(2, w.a.mac, w.b.mac, w.b.ip, w.a.ip), []))
    ensures w3.a.ip == w.a.ip && w3.a.mac == w.a.mac && w3.b == w.b
    ensures Find(w3.a.table, w.b.ip) == Some(w.b.mac)
  {
    var answer := ArpFrame(2, w.a.mac, w.b.mac, w.b.ip, w.a.ip);
    assert answer + [] == answer;
    LearnsFromAnswer(w.a.ip, w.a.mac, w.a.table, w.b.ip, w.b.mac);
    LearnThenFind(w.a.table, w.b.ip, w.b.mac, w.b.ip);
    w3 := Take(w, Receive(A, answer, []));
  }

  lemma EchoReturns(w: World, id: word, sq: word)
    requires Find(w.a.table, w.b.ip) == Some(w.b.mac)
    ensures var w4 := Take(w, AskEcho(A, w.b.ip, id, sq));
      var w5 := Take(w4, Receive(B, IcmpFrame(w.b.mac, w.a.mac, w.a.ip, w.b.ip, id, sq, 8), []));
      var reply := IcmpFrame(w.a.mac, w.b.mac, w.b.ip, w.a.ip, id, sq, 0);
      && reply in w5.wire && Accepts(w5.a.mac, reply)
      && var r := Poll(w5.a.ip, w5.a.mac, w5.a.table, reply);
      && r.code == 3 && r.id == id && r.sq == sq
  {
    var echo := IcmpFrame(w.b.mac, w.a.mac, w.a.ip, w.b.ip, id, sq, 8);
    assert echo + [] == echo;
    AnswersEcho(w.b.ip, w.b.mac, w.b.table, w.a.ip, w.a.mac, id, sq);
    var w4 := Take(w, AskEcho(A, w.b.ip, id, sq));
    var w5 := Take(w4, Receive(B, echo, []));
    ReportsReply(w5.a.ip, w5.a.mac, w5.a.table, w.b.ip, w.b.mac, id, sq);
  }
}
