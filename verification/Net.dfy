// ARP and ICMP echo between hosts (net.c; RFC 826 "Packet Reception", RFC 792 "Echo or Echo Reply
// Message"): the frames, the address table, and what a received frame brings about.
module Net {
  import opened Options
  import opened Sets
  import opened Bytes
  import opened InternetChecksum

  type Ip = s: seq<byte> | |s| == 4 witness [0, 0, 0, 0]

  type Mac = s: seq<byte> | |s| == 6 witness [0, 0, 0, 0, 0, 0]

  const BROADCAST: Mac := [0xFF, 0xFF, 0xFF, 0xFF, 0xFF, 0xFF]

  const NOBODY: Mac := [0, 0, 0, 0, 0, 0]

  // ----- the table of addresses -----

  const ARP_N: nat := 8

  datatype Entry = Entry(used: bool, ip: Ip, mac: Mac)

  const FREE := Entry(false, [0, 0, 0, 0], NOBODY)

  type Table = t: seq<Entry> | |t| == ARP_N witness [FREE, FREE, FREE, FREE, FREE, FREE, FREE, FREE]

  const EMPTY_TABLE: Table := [FREE, FREE, FREE, FREE, FREE, FREE, FREE, FREE]

  predicate Matches(e: Entry, ip: Ip) { e.used && e.ip == ip }

  // The first entry from i on for ip, or |t|.
  function Seek(t: Table, ip: Ip, i: nat): (k: nat)
    requires i <= |t|
    ensures i <= k <= |t| && (k < |t| ==> Matches(t[k], ip))
    ensures forall j :: i <= j < k ==> !Matches(t[j], ip)
    decreases |t| - i
  {
    if i == |t| || Matches(t[i], ip) then i else Seek(t, ip, i + 1)
  }

  // The first unused entry from i on, or |t|.
  function SeekFree(t: Table, i: nat): (k: nat)
    requires i <= |t|
    ensures i <= k <= |t| && (k < |t| ==> !t[k].used)
    ensures forall j :: i <= j < k ==> t[j].used
    decreases |t| - i
  {
    if i == |t| || !t[i].used then i else SeekFree(t, i + 1)
  }

  // Where a new address goes: over its old entry, into a free one, or else over the first.
  function SlotFor(t: Table, ip: Ip): (k: nat)
    ensures k < |t|
  {
    if Seek(t, ip, 0) < |t| then Seek(t, ip, 0)
    else if SeekFree(t, 0) < |t| then SeekFree(t, 0)
    else 0
  }

  function Learn(t: Table, ip: Ip, mac: Mac): Table {
    t[SlotFor(t, ip) := Entry(true, ip, mac)]
  }

  function Find(t: Table, ip: Ip): Option<Mac> {
    var k := Seek(t, ip, 0);
    if k < |t| then Some(t[k].mac) else None
  }

  predicate Distinct(t: Table) {
    forall i, j :: 0 <= i < j < |t| && t[i].used && t[j].used ==> t[i].ip != t[j].ip
  }

  lemma FindsEntry(t: Table, k: nat, ip: Ip)
    requires Distinct(t) && k < |t| && Matches(t[k], ip)
    ensures Find(t, ip) == Some(t[k].mac)
  {
    assert Seek(t, ip, 0) == k;
  }

  // Neither an entry for ip nor a free one.
  predicate Replaces(t: Table, ip: Ip) {
    Seek(t, ip, 0) == SeekFree(t, 0) == |t|
  }

  // What learning changes: the address itself, and, if all entries are in use by others, the
  // address in the first one, which is forgotten.
  lemma LearnThenFind(t: Table, ip: Ip, mac: Mac, x: Ip)
    requires Distinct(t)
    ensures var t' := Learn(t, ip, mac);
      && Distinct(t')
      && Find(t', ip) == Some(mac)
      && (x != ip ==> Find(t', x) == if Replaces(t, ip) && t[0].ip == x then None else Find(t, x))
  {
    var k, t' := SlotFor(t, ip), Learn(t, ip, mac);
    FindsEntry(t', k, ip);
    if x != ip {
      var s := Seek(t, x, 0);
      if s < |t| && s != k {
        FindsEntry(t', s, x);
      } else {
        assert forall j :: 0 <= j < |t'| ==> !Matches(t'[j], x);
      }
    }
  }

  // ----- a history of addresses heard -----

  datatype Heard = Heard(ip: Ip, mac: Mac)

  function LearnAll(hs: seq<Heard>): Table {
    if hs == [] then EMPTY_TABLE else Learn(LearnAll(hs[..|hs| - 1]), hs[|hs| - 1].ip, hs[|hs| - 1].mac)
  }

  function Last(hs: seq<Heard>, ip: Ip): Option<Mac> {
    if hs == [] then None
    else if hs[|hs| - 1].ip == ip then Some(hs[|hs| - 1].mac)
    else Last(hs[..|hs| - 1], ip)
  }

  function Addresses(hs: seq<Heard>): set<Ip> {
    if hs == [] then {} else Addresses(hs[..|hs| - 1]) + {hs[|hs| - 1].ip}
  }

  // arp_find gives the last address heard, or nothing; and never nothing while no more than eight
  // hosts have been heard.
  lemma {:induction false} FindsLastHeard(hs: seq<Heard>, ip: Ip)
    ensures Distinct(LearnAll(hs))
    ensures Find(LearnAll(hs), ip) == None || Find(LearnAll(hs), ip) == Last(hs, ip)
    ensures |Addresses(hs)| <= ARP_N ==> Find(LearnAll(hs), ip) == Last(hs, ip)
    ensures forall k :: 0 <= k < ARP_N && LearnAll(hs)[k].used ==> LearnAll(hs)[k].ip in Addresses(hs)
    decreases |hs|
  {
    if hs != [] {
      var p, h := hs[..|hs| - 1], hs[|hs| - 1];
      FindsLastHeard(p, ip);
      var t := LearnAll(p);
      LearnThenFind(t, h.ip, h.mac, ip);
      if Replaces(t, h.ip) {
        FullTable(t, Addresses(p), h.ip);
      } else {
        SubsetSize(Addresses(p), Addresses(hs));
      }
    }
  }

  // The last address heard is found for every host exactly while no more than eight have been heard.
  lemma RemembersAllExactly(hs: seq<Heard>)
    ensures (forall ip: Ip :: Find(LearnAll(hs), ip) == Last(hs, ip)) <==> |Addresses(hs)| <= ARP_N
  {
    forall ip: Ip | |Addresses(hs)| <= ARP_N
      ensures Find(LearnAll(hs), ip) == Last(hs, ip)
    {
      FindsLastHeard(hs, ip);
    }
    if |Addresses(hs)| > ARP_N {
      var ip := Forgotten(hs);
      assert Find(LearnAll(hs), ip) != Last(hs, ip);
    }
  }

  predicate AllDifferent(hs: seq<Heard>) {
    forall i, j :: 0 <= i < j < |hs| ==> hs[i].ip != hs[j].ip
  }

  // Different hosts take the entries in turn.
  lemma {:induction false} FillsInOrder(hs: seq<Heard>)
    requires |hs| <= ARP_N && AllDifferent(hs)
    ensures var t := LearnAll(hs);
      forall k :: 0 <= k < ARP_N ==> t[k] == if k < |hs| then Entry(true, hs[k].ip, hs[k].mac) else FREE
  {
    if hs != [] {
      var n := |hs| - 1;
      FillsInOrder(hs[..n]);
      NextFree(LearnAll(hs[..n]), hs[..n], hs[n].ip);
    }
  }

  lemma NextFree(t: Table, hs: seq<Heard>, ip: Ip)
    requires |hs| < ARP_N && forall k :: 0 <= k < |hs| ==> hs[k].ip != ip
    requires forall k :: 0 <= k < ARP_N ==> t[k] == if k < |hs| then Entry(true, hs[k].ip, hs[k].mac) else FREE
    ensures SlotFor(t, ip) == |hs|
  {
    assert t[|hs|] == FREE;
    assert forall k :: 0 <= k < ARP_N ==> !Matches(t[k], ip);
  }

  // A ninth host takes the entry of the first, which is forgotten.
  lemma NinthForgetsFirst(hs: seq<Heard>)
    requires |hs| == ARP_N + 1 && AllDifferent(hs)
    ensures Find(LearnAll(hs), hs[0].ip) == None && Last(hs, hs[0].ip) == Some(hs[0].mac)
  {
    var p, h := hs[..ARP_N], hs[ARP_N];
    FillsInOrder(p);
    FindsLastHeard(p, hs[0].ip);
    var t := LearnAll(p);
    assert Replaces(t, h.ip);
    LearnThenFind(t, h.ip, h.mac, hs[0].ip);
    LastOfFirst(hs);
  }

  lemma {:induction false} LastOfFirst(hs: seq<Heard>)
    requires hs != [] && AllDifferent(hs)
    ensures Last(hs, hs[0].ip) == Some(hs[0].mac)
  {
    if |hs| > 1 {
      LastOfFirst(hs[..|hs| - 1]);
    }
  }

  // 10.0.2.k with the MAC address 02:00:00:00:00:k
  function Host(k: byte): Heard { Heard([10, 0, 2, k], [2, 0, 0, 0, 0, k]) }

  lemma NineHosts()
    ensures var hs := seq(9, k requires 0 <= k < 9 => Host(k));
      Find(LearnAll(hs), [10, 0, 2, 0]) == None && Last(hs, [10, 0, 2, 0]) == Some([2, 0, 0, 0, 0, 0])
  {
    var hs := seq(9, k requires 0 <= k < 9 => Host(k));
    assert forall k :: 0 <= k < 9 ==> hs[k].ip[3] == k;
    NinthForgetsFirst(hs);
  }

  // With nine addresses heard there is one that is not found.
  lemma Forgotten(hs: seq<Heard>) returns (ip: Ip)
    requires |Addresses(hs)| > ARP_N
    ensures ip in Addresses(hs) && Find(LearnAll(hs), ip) == None && Last(hs, ip) != None
  {
    var t := LearnAll(hs);
    HeldAtMost(t, |t|);
    if Addresses(hs) <= Held(t, |t|) {
      SubsetSize(Addresses(hs), Held(t, |t|));
      assert false;
    }
    ip :| ip in Addresses(hs) && ip !in Held(t, |t|);
    NotHeld(t, |t|, ip);
    HeardIsLast(hs, ip);
  }

  lemma {:induction false} HeldAtMost(t: Table, n: nat)
    requires n <= |t|
    ensures |Held(t, n)| <= n
  {
    if n > 0 {
      HeldAtMost(t, n - 1);
    }
  }

  lemma {:induction false} NotHeld(t: Table, n: nat, ip: Ip)
    requires n <= |t| && ip !in Held(t, n)
    ensures forall k :: 0 <= k < n ==> t[k].ip != ip
  {
    if n > 0 {
      NotHeld(t, n - 1, ip);
    }
  }

  lemma {:induction false} HeardIsLast(hs: seq<Heard>, ip: Ip)
    requires ip in Addresses(hs)
    ensures Last(hs, ip) != None
  {
    if hs[|hs| - 1].ip != ip {
      HeardIsLast(hs[..|hs| - 1], ip);
    }
  }

  // Eight entries for eight addresses, and a ninth.
  lemma FullTable(t: Table, known: set<Ip>, ip: Ip)
    requires Distinct(t) && Replaces(t, ip)
    requires forall k :: 0 <= k < ARP_N && t[k].used ==> t[k].ip in known
    ensures |known + {ip}| > ARP_N
  {
    Spread(t, |t|, known);
    if ip in Held(t, |t|) {
      var k := Holder(t, |t|, ip);
      assert Matches(t[k], ip);
      assert false;
    }
    assert |Held(t, |t|) + {ip}| == ARP_N + 1;
    SubsetSize(Held(t, |t|) + {ip}, known + {ip});
  }

  function Held(t: Table, n: nat): set<Ip>
    requires n <= |t|
  {
    if n == 0 then {} else Held(t, n - 1) + {t[n - 1].ip}
  }

  lemma {:induction false} Holder(t: Table, n: nat, ip: Ip) returns (k: nat)
    requires n <= |t| && ip in Held(t, n)
    ensures k < n && t[k].ip == ip
  {
    if t[n - 1].ip == ip {
      k := n - 1;
    } else {
      k := Holder(t, n - 1, ip);
    }
  }

  lemma {:induction false} Spread(t: Table, n: nat, known: set<Ip>)
    requires Distinct(t) && n <= |t| && forall k :: 0 <= k < n ==> t[k].used
    requires forall k :: 0 <= k < ARP_N && t[k].used ==> t[k].ip in known
    ensures |Held(t, n)| == n && Held(t, n) <= known
  {
    if n > 0 {
      Spread(t, n - 1, known);
      if t[n - 1].ip in Held(t, n - 1) {
        var k := Holder(t, n - 1, t[n - 1].ip);
        assert false;
      }
    }
  }

  // ----- frames -----

  // Ethernet and ARP; op 1 asks, op 2 answers.
  function ArpFrame(op: byte, dst: Mac, mac: Mac, ip: Ip, target: Ip): (f: seq<byte>)
    ensures |f| == 42
  {
    dst + (mac + ([0x08, 0x06, 0, 1, 0x08, 0, 6, 4, 0, op] + (mac + (ip + ((if op == 1 then NOBODY else dst) + target)))))
  }

  const PAYLOAD: seq<byte> := [
    0xA0, 0xA1, 0xA2, 0xA3, 0xA4, 0xA5, 0xA6, 0xA7, 0xA8, 0xA9,
    0xAA, 0xAB, 0xAC, 0xAD, 0xAE, 0xAF, 0xB0, 0xB1, 0xB2, 0xB3]

  function IpHeader0(src: Ip, dst: Ip): (h: seq<byte>)
    ensures |h| == 20
  {
    [0x45, 0, 0, 48, 0x12, 0x34, 0x40, 0, 64, 1, 0, 0] + (src + dst)
  }

  function Echo0(kind: byte, id: word, sq: word): (e: seq<byte>)
    ensures |e| == 28
  {
    [kind, 0, 0, 0, High(id), Low(id), High(sq), Low(sq)] + PAYLOAD
  }

  function IpHeader(src: Ip, dst: Ip): (h: seq<byte>)
    ensures |h| == 20
  {
    StoreWord(IpHeader0(src, dst), 10, Checksum(IpHeader0(src, dst)))
  }

  function Echo(kind: byte, id: word, sq: word): (e: seq<byte>)
    ensures |e| == 28
  {
    StoreWord(Echo0(kind, id, sq), 2, Checksum(Echo0(kind, id, sq)))
  }

  // Ethernet, IPv4 and ICMP; kind 8 asks for an echo, kind 0 is one.
  function IcmpFrame(dst: Mac, mac: Mac, ip: Ip, dip: Ip, id: word, sq: word, kind: byte): (f: seq<byte>)
    ensures |f| == 62
  {
    dst + (mac + ([0x08, 0] + (IpHeader(ip, dip) + Echo(kind, id, sq))))
  }

  // Bytes of the first part stay where they are.
  lemma Within(s: seq<byte>, t: seq<byte>, a: nat, b: nat)
    requires a <= b <= |s|
    ensures (s + t)[a..b] == s[a..b]
  {
  }

  // The fields of an ARP packet in an Ethernet frame (RFC 826, "Packet format"): to whom and from whom,
  // the type of the frame; Ethernet (1) and IPv4 (0x0800) with addresses of 6 and 4 bytes, and what is
  // wanted; who says so, and of whom.
  lemma ArpLayout(op: byte, dst: Mac, mac: Mac, ip: Ip, target: Ip)
    ensures var f := ArpFrame(op, dst, mac, ip, target);
      && f[0..6] == dst && f[6..12] == mac && f[12..14] == [0x08, 0x06]
      && f[14..22] == [0x00, 0x01, 0x08, 0x00, 6, 4, 0, op]
      && f[22..28] == mac && f[28..32] == ip
      && f[32..38] == (if op == 1 then [0, 0, 0, 0, 0, 0] else dst) && f[38..42] == target
  {
    var head := [0x08, 0x06, 0, 1, 0x08, 0, 6, 4, 0, op];
    var last := if op == 1 then NOBODY else dst;
    var f := ArpFrame(op, dst, mac, ip, target);
    assert f == (dst + mac + head) + (mac + (ip + (last + target)));
    assert f[12..14] == head[0..2] && f[14..22] == head[2..10];
  }

  // What a receiver finds in an ARP frame, padded or not.
  lemma ArpFields(op: byte, dst: Mac, mac: Mac, ip: Ip, target: Ip, pad: seq<byte>)
    ensures var f := ArpFrame(op, dst, mac, ip, target) + pad;
      && f[0..6] == dst && Word(f[12], f[13]) == 0x0806 && Word(f[20], f[21]) == op as word
      && f[22..28] == mac && f[28..32] == ip && f[38..42] == target
  {
    var f := ArpFrame(op, dst, mac, ip, target);
    ArpLayout(op, dst, mac, ip, target);
    assert f[12] == f[12..14][0] && f[13] == f[12..14][1] && f[20] == f[14..22][6] && f[21] == f[14..22][7];
    Within(f, pad, 0, 6);
    Within(f, pad, 22, 28);
    Within(f, pad, 28, 32);
    Within(f, pad, 38, 42);
  }

  lemma HeaderFields(src: Ip, dst: Ip)
    ensures var h := IpHeader(src, dst);
      && h[0..10] == [0x45, 0, 0, 48, 0x12, 0x34, 0x40, 0, 64, 1]
      && h[12..16] == src && h[16..20] == dst && Checksum(h) == 0
  {
    var h0, h := IpHeader0(src, dst), IpHeader(src, dst);
    StoredChecksumPasses(h0, 10);
    assert h[0..10] == h0[0..10];
    assert h[12..16] == h0[12..16] == src;
    assert h[16..20] == h0[16..20] == dst;
  }

  lemma PayloadCounts(i: nat)
    requires i < 20
    ensures PAYLOAD[i] == 0xA0 + i
  {
  }

  lemma EchoFields(kind: byte, id: word, sq: word)
    ensures var e := Echo(kind, id, sq);
      && e[0] == kind && e[1] == 0 && Checksum(e) == 0
      && e[4] as int * 256 + e[5] as int == id && e[6] as int * 256 + e[7] as int == sq
      && forall i :: 8 <= i < 28 ==> e[i] == 0xA0 + i - 8
  {
    var e0, e := Echo0(kind, id, sq), Echo(kind, id, sq);
    StoredChecksumPasses(e0, 2);
    assert e[4] == e0[4] && e[5] == e0[5] && e[6] == e0[6] && e[7] == e0[7];
    forall i | 8 <= i < 28 ensures e[i] == 0xA0 + i - 8 {
      assert e[i] == e0[i] == PAYLOAD[i - 8];
      PayloadCounts(i - 8);
    }
  }

  // The fields of an echo message in an IPv4 packet (RFC 792 "Echo or Echo Reply Message", section 3.1
  // of RFC 791), with 20 bytes from 0xA0 on to be sent back; both checksums pass.
  lemma EchoLayout(dst: Mac, mac: Mac, ip: Ip, dip: Ip, id: word, sq: word, kind: byte)
    ensures var f := IcmpFrame(dst, mac, ip, dip, id, sq, kind);
      && f[0..6] == dst && f[6..12] == mac && f[12..14] == [0x08, 0x00]
      && f[14..24] == [0x45, 0, 0, 48, 0x12, 0x34, 0x40, 0, 64, 1] && f[26..30] == ip && f[30..34] == dip
      && f[34] == kind && f[35] == 0
      && f[38] as int * 256 + f[39] as int == id && f[40] as int * 256 + f[41] as int == sq
      && (forall i :: 42 <= i < 62 ==> f[i] == 0xA0 + i - 42)
      && Checksum(f[14..34]) == 0 && Checksum(f[34..62]) == 0
  {
    var h, e := IpHeader(ip, dip), Echo(kind, id, sq);
    HeaderFields(ip, dip);
    EchoFields(kind, id, sq);
    IcmpLayout(dst, mac, h, e);
    var f := IcmpFrame(dst, mac, ip, dip, id, sq, kind);
    assert f[14..24] == f[14..34][0..10] && f[26..30] == f[14..34][12..16] && f[30..34] == f[14..34][16..20];
    assert forall i :: 34 <= i < 62 ==> f[i] == f[34..62][i - 34];
  }

  // What a receiver finds in an ICMP frame, padded or not.
  lemma IcmpFields(dst: Mac, mac: Mac, ip: Ip, dip: Ip, id: word, sq: word, kind: byte, pad: seq<byte>)
    ensures var f := IcmpFrame(dst, mac, ip, dip, id, sq, kind) + pad;
      && f[0..6] == dst && Word(f[12], f[13]) == 0x0800 && f[14] / 16 == 4 && f[23] == 1
      && f[6..12] == mac && f[26..30] == ip && f[30..34] == dip
      && f[34] == kind && Word(f[38], f[39]) == id && Word(f[40], f[41]) == sq
  {
    var f := IcmpFrame(dst, mac, ip, dip, id, sq, kind);
    EchoLayout(dst, mac, ip, dip, id, sq, kind);
    assert f[12] == f[12..14][0] && f[13] == f[12..14][1] && f[14] == f[14..24][0] && f[23] == f[14..24][9];
    Within(f, pad, 0, 6);
    Within(f, pad, 6, 12);
    Within(f, pad, 26, 30);
    Within(f, pad, 30, 34);
  }

  lemma IcmpLayout(dst: Mac, mac: Mac, h: seq<byte>, e: seq<byte>)
    requires |h| == 20 && |e| == 28
    ensures var f := dst + (mac + ([0x08, 0] + (h + e)));
      |f| == 62 && f[0..6] == dst && f[6..12] == mac && f[12..14] == [8, 0] && f[14..34] == h && f[34..62] == e
  {
    var f := dst + (mac + ([0x08, 0] + (h + e)));
    assert f == dst + mac + [0x08, 0] + (h + e);
    assert f == dst + mac + [0x08, 0] + h + e;
  }

  // ----- a received frame -----

  // What net_poll_one returns, the table it leaves, and the frame it sends.
  datatype Response = Response(code: nat, table: Table, sent: Option<seq<byte>>, id: word, sq: word)

  function Nothing(t: Table): Response {
    Response(0, t, None, 0, 0)
  }

  function Poll(ip: Ip, mac: Mac, t: Table, f: seq<byte>): Response {
    if |f| < 14 then Nothing(t)
    else if Word(f[12], f[13]) == 0x0806 && |f| >= 42 then
      var op := Word(f[20], f[21]);
      Response(1, Learn(t, f[28..32], f[22..28]),
               if op == 1 && f[38..42] == ip then Some(ArpFrame(2, f[22..28], mac, ip, f[28..32])) else None, 0, 0)
    else if Word(f[12], f[13]) == 0x0800 && |f| >= 62 then
      if f[14] / 16 != 4 || f[23] != 1 || f[30..34] != ip then Nothing(t)
      else
        var id, sq := Word(f[38], f[39]), Word(f[40], f[41]);
        var t' := Learn(t, f[26..30], f[6..12]);
        if f[34] == 8 then Response(2, t', Some(IcmpFrame(f[6..12], mac, ip, f[26..30], id, sq, 0)), 0, 0)
        else if f[34] == 0 then Response(3, t', None, id, sq)
        else Response(0, t', None, 0, 0)
    else Nothing(t)
  }

  predicate Starts(f: seq<byte>, at: nat, t: seq<byte>) {
    at + |t| <= |f| && f[at..at + |t|] == t
  }

  // A host answers requests for its own address and echo requests to it, and nothing else: byte for
  // byte, what it answers.
  lemma AnswersExactly(ip: Ip, mac: Mac, t: Table, f: seq<byte>)
    ensures Poll(ip, mac, t, f).sent.Some? <==>
      || (|f| >= 42 && Starts(f, 12, [8, 6]) && Starts(f, 20, [0, 1]) && Starts(f, 38, ip))
      || (|f| >= 62 && Starts(f, 12, [8, 0]) && 0x40 <= f[14] < 0x50 && f[23] == 1 && Starts(f, 30, ip) && f[34] == 8)
  {
    if |f| >= 14 {
      assert Starts(f, 12, [8, 6]) <==> f[12] == 8 && f[13] == 6;
      assert Starts(f, 12, [8, 0]) <==> f[12] == 8 && f[13] == 0;
    }
    if |f| >= 42 {
      assert Starts(f, 20, [0, 1]) <==> f[20] == 0 && f[21] == 1;
    }
  }

  // What a host learns from a frame: the sender of an ARP packet, or of an ICMP message to it.
  lemma LearnsExactly(ip: Ip, mac: Mac, t: Table, f: seq<byte>)
    ensures |f| >= 42 && Starts(f, 12, [8, 6]) ==> Poll(ip, mac, t, f).table == Learn(t, f[28..32], f[22..28])
    ensures !(|f| >= 42 && Starts(f, 12, [8, 6])) && !(|f| >= 62 && Starts(f, 12, [8, 0]) && Starts(f, 30, ip)) ==>
      Poll(ip, mac, t, f) == Nothing(t)
  {
    if |f| >= 14 {
      assert Starts(f, 12, [8, 6]) <==> f[12] == 8 && f[13] == 6;
      assert Starts(f, 12, [8, 0]) <==> f[12] == 8 && f[13] == 0;
    }
  }
}
