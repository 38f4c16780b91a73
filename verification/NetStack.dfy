// The code of net.c over its arrays: the table is searched and overwritten in place, and frames
// are built byte by byte.
module NetStack {
  import opened Options
  import opened Bytes
  import opened InternetChecksum
  import opened Net

  // memset(f, 0, n), and then a first piece
  method Blank(n: nat) returns (f: array<byte>)
    ensures fresh(f) && f[..] == Zeros(n)
  {
    f := new byte[n](_ => 0);
  }

  // What has been written so far, followed by zeros.
  ghost predicate Written(f: seq<byte>, s: seq<byte>) {
    |s| <= |f| && f == s + Zeros(|f| - |s|)
  }

  // Writes the next piece where the last one ended.
  method PutNext(f: array<byte>, at: nat, ghost s: seq<byte>, t: seq<byte>)
    requires Written(f[..], s) && at == |s| && at + |t| <= f.Length
    modifies f
    ensures Written(f[..], s + t)
  {
    Put(f, at, t);
  }

  // Writes the last piece again.
  method PutAgain(f: array<byte>, at: nat, ghost s: seq<byte>, ghost t: seq<byte>, u: seq<byte>)
    requires Written(f[..], s + t) && at == |s| && |t| == |u|
    modifies f
    ensures Written(f[..], s + u)
  {
    Put(f, at, u);
  }

  lemma AllWritten(f: seq<byte>, s: seq<byte>)
    requires Written(f, s) && |f| == |s|
    ensures f == s
  {
  }

  class Stack {
    const mac: Mac
    var netIp: Ip
    const arpTab: array<Entry>
    var sent: seq<seq<byte>>

    ghost predicate Valid()
      reads this, arpTab
    {
      arpTab.Length == ARP_N
    }

    ghost function Table_(): Table
      reads this, arpTab
      requires Valid()
    {
      arpTab[..]
    }

    constructor (mac: Mac, ip: Ip)
      ensures Valid() && fresh(arpTab) && this.mac == mac && netIp == ip && sent == [] && Table_() == EMPTY_TABLE
    {
      this.mac, netIp, sent := mac, ip, [];
      arpTab := new Entry[ARP_N](_ => FREE);
      new;
      assert arpTab[..] == EMPTY_TABLE;
    }

    method ArpLearn(ip: Ip, m: Mac)
      requires Valid()
      modifies arpTab
      ensures Valid() && Table_() == Learn(old(Table_()), ip, m)
    {
      var free := -1;
      ghost var t: Table := arpTab[..];
      for i := 0 to ARP_N
        invariant arpTab[..] == t
        invariant Seek(t, ip, 0) == Seek(t, ip, i)
        invariant free == -1 ==> SeekFree(t, 0) == SeekFree(t, i)
        invariant free == -1 || (0 <= free < ARP_N && free == SeekFree(t, 0))
      {
        if arpTab[i].used && arpTab[i].ip == ip {
          arpTab[i] := arpTab[i].(mac := m);
          assert arpTab[..] == t[i := Entry(true, ip, m)];
          return;
        }
        if !arpTab[i].used && free < 0 {
          free := i;
        }
      }
      if free < 0 {
        free := 0;
      }
      arpTab[free] := Entry(true, ip, m);
      assert arpTab[..] == t[free := Entry(true, ip, m)];
    }

    method ArpFind(ip: Ip) returns (m: Option<Mac>)
      requires Valid()
      ensures m == Find(Table_(), ip)
    {
      for i := 0 to ARP_N
        invariant Seek(arpTab[..], ip, 0) == Seek(arpTab[..], ip, i)
      {
        if arpTab[i].used && arpTab[i].ip == ip {
          return Some(arpTab[i].mac);
        }
      }
      return None;
    }

    method ArpSend(op: byte, dst: Mac, target: Ip)
      modifies this`sent
      ensures sent == old(sent) + [ArpFrame(op, dst, mac, netIp, target)]
    {
      var f := Blank(42);
      var head: seq<byte> := [0x08, 0x06, 0, 1, 0x08, 0, 6, 4, 0, op];
      var last := if op == 1 then NOBODY else dst;
      PutNext(f, 0, [], dst);
      PutNext(f, 6, [] + dst, mac);
      PutNext(f, 12, [] + dst + mac, head);
      ghost var s := [] + dst + mac + head;
      PutNext(f, 22, s, mac);
      PutNext(f, 28, s + mac, netIp);
      PutNext(f, 32, s + mac + netIp, if op == 1 then BROADCAST else dst);
      if op == 1 {
        PutAgain(f, 32, s + mac + netIp, BROADCAST, NOBODY);
      }
      PutNext(f, 38, s + mac + netIp + last, target);
      AllWritten(f[..], s + mac + netIp + last + target);
      ArpPieces(dst, mac, head, mac, netIp, last, target);
      sent := sent + [f[..]];
    }

    method IcmpSend(dst: Mac, dip: Ip, id: word, sq: word, kind: byte)
      modifies this`sent
      ensures sent == old(sent) + [IcmpFrame(dst, mac, netIp, dip, id, sq, kind)]
    {
      var f := Blank(128);
      var ip0: seq<byte> := [0x45, 0, 0, 48, 0x12, 0x34, 0x40, 0, 64, 1, 0, 0];
      PutNext(f, 0, [], dst);
      PutNext(f, 6, [] + dst, mac);
      PutNext(f, 12, [] + dst + mac, [0x08, 0]);
      ghost var s := [] + dst + mac + [0x08, 0];
      PutNext(f, 14, s, ip0);
      PutNext(f, 26, s + ip0, netIp);
      PutNext(f, 30, s + ip0 + netIp, dip);
      ghost var h0 := IpHeader0(netIp, dip);
      HeaderPieces(s, ip0, netIp, dip);
      var ck := StoreChecksum(f, 14, s, h0, 20, 10);
      PutNext(f, 34, s + IpHeader(netIp, dip), [kind, 0, 0, 0, High(id), Low(id), High(sq), Low(sq)]);
      PutNext(f, 42, s + IpHeader(netIp, dip) + [kind, 0, 0, 0, High(id), Low(id), High(sq), Low(sq)], PAYLOAD);
      ghost var e0 := Echo0(kind, id, sq);
      EchoPieces(s + IpHeader(netIp, dip), kind, id, sq);
      ck := StoreChecksum(f, 34, s + IpHeader(netIp, dip), e0, 28, 2);
      IcmpPieces(dst, mac, IpHeader(netIp, dip), Echo(kind, id, sq));
      assert f[..62] == IcmpFrame(dst, mac, netIp, dip, id, sq, kind);
      sent := sent + [f[..62]];
    }

    // One received frame, f[..n].  The code is 1 for ARP, 2 for an echo request, 3 for a reply with
    // its id and sequence number, and 0 otherwise.
    method NetPollOne(f: array<byte>, n: nat) returns (code: nat, id: word, sq: word)
      requires Valid() && n <= f.Length
      modifies this`sent, arpTab
      ensures Valid()
      ensures var r := Poll(netIp, mac, old(Table_()), old(f[..n]));
        && code == r.code && id == r.id && sq == r.sq && Table_() == r.table
        && sent == old(sent) + if r.sent.Some? then [r.sent.value] else []
    {
      code, id, sq := 0, 0, 0;
      if n < 14 {
        return;
      }
      var eth := Word(f[12], f[13]);
      if eth == 0x0806 && n >= 42 {
        var op := Word(f[20], f[21]);
        var senderMac, senderIp := f[22..28], f[28..32];
        var asksMe := op == 1 && f[38..42] == netIp;
        FieldsOf(f[..], n);
        ArpLearn(senderIp, senderMac);
        if asksMe {
          ArpSend(2, senderMac, senderIp);
        }
        return 1, 0, 0;
      }
      if eth == 0x0800 && n >= 62 {
        code, id, sq := PollIcmp(f, n);
      }
    }

    method PollIcmp(f: array<byte>, n: nat) returns (code: nat, id: word, sq: word)
      requires Valid() && 62 <= n <= f.Length && Word(f[12], f[13]) == 0x0800
      modifies this`sent, arpTab
      ensures Valid()
      ensures var r := Poll(netIp, mac, old(Table_()), old(f[..n]));
        && code == r.code && id == r.id && sq == r.sq && Table_() == r.table
        && sent == old(sent) + if r.sent.Some? then [r.sent.value] else []
    {
      code, id, sq := 0, 0, 0;
      FieldsOf(f[..], n);
      if f[14] / 16 != 4 || f[23] != 0x01 {
        return;
      }
      if f[30..34] != netIp {
        return;
      }
      var kind := f[34];
      var i, s := Word(f[38], f[39]), Word(f[40], f[41]);
      var senderMac, senderIp := f[6..12], f[26..30];
      ArpLearn(senderIp, senderMac);
      if kind == 8 {
        IcmpSend(senderMac, senderIp, i, s, 0);
        return 2, 0, 0;
      }
      if kind == 0 {
        return 3, i, s;
      }
    }

    // One frame that came in, on its way through net_poll_one.
    method TakeFrame(frame: seq<byte>) returns (code: nat, id: word, sq: word)
      requires Valid()
      modifies this`sent, arpTab
      ensures Valid()
      ensures var r := Poll(netIp, mac, EMPTY_TABLE, frame); code == r.code && id == r.id && sq == r.sq
    {
      var f := Blank(|frame|);
      Put(f, 0, frame);
      assert f[..|frame|] == frame;
      PollIgnoresTable(netIp, mac, Table_(), frame);
      code, id, sq := NetPollOne(f, |frame|);
    }

    // The wait of ping_cmd after its i-th request: it takes the frames that come in until the time
    // is up, and stops at the first reply with its own id and that sequence number.
    method AwaitReply(inbox: seq<seq<byte>>, i: word) returns (got: bool)
      requires Valid()
      modifies this`sent, arpTab
      ensures Valid()
      ensures got <==> exists k :: 0 <= k < |inbox| && IsReplyTo(netIp, mac, inbox[k], 0xBEEF, i)
    {
      for k := 0 to |inbox|
        invariant Valid()
        invariant forall j :: 0 <= j < k ==> !IsReplyTo(netIp, mac, inbox[j], PING_ID, i)
      {
        var code, id, sq := TakeFrame(inbox[k]);
        if code == 3 && id == PING_ID && sq == i {
          return true;
        }
      }
      return false;
    }
  }

  const PING_ID: word := 0xBEEF

  predicate IsReplyTo(ip: Ip, mac: Mac, f: seq<byte>, id: word, sq: word) {
    var r := Poll(ip, mac, EMPTY_TABLE, f);
    r.code == 3 && r.id == id && r.sq == sq
  }

  // The bytes that make a frame the reply waited for.
  lemma ReplyBytes(ip: Ip, mac: Mac, f: seq<byte>, id: word, sq: word)
    ensures IsReplyTo(ip, mac, f, id, sq) <==>
      && |f| >= 62 && Starts(f, 12, [8, 0]) && 0x40 <= f[14] < 0x50 && f[23] == 1 && Starts(f, 30, ip) && f[34] == 0
      && f[38] as int * 256 + f[39] as int == id && f[40] as int * 256 + f[41] as int == sq
  {
    if |f| >= 14 {
      assert Starts(f, 12, [8, 6]) <==> f[12] == 8 && f[13] == 6;
      assert Starts(f, 12, [8, 0]) <==> f[12] == 8 && f[13] == 0;
    }
  }

  lemma PollIgnoresTable(ip: Ip, mac: Mac, t: Table, f: seq<byte>)
    ensures var r, r' := Poll(ip, mac, t, f), Poll(ip, mac, EMPTY_TABLE, f);
      r.code == r'.code && r.id == r'.id && r.sq == r'.sq
  {
  }

  // The fields of a frame lie in the part that was received.
  lemma FieldsOf(f: seq<byte>, n: nat)
    requires 42 <= n <= |f|
    ensures f[..n][22..28] == f[22..28] && f[..n][28..32] == f[28..32] && f[..n][38..42] == f[38..42]
    ensures f[..n][6..12] == f[6..12] && f[..n][26..30] == f[26..30] && f[..n][30..34] == f[30..34]
  {
    var s, t := f[..n], f[n..];
    assert f == s + t;
    Within(s, t, 22, 28);
    Within(s, t, 28, 32);
    Within(s, t, 38, 42);
    Within(s, t, 6, 12);
    Within(s, t, 26, 30);
    Within(s, t, 30, 34);
  }

  // Stores the checksum of the piece t, n bytes from `at` on, at t[k..k + 2].
  method StoreChecksum(f: array<byte>, at: nat, ghost s: seq<byte>, ghost t: seq<byte>, n: nat, k: nat) returns (ck: word)
    requires Written(f[..], s + t) && at == |s| && |t| == n <= 131074 && k + 1 < n
    modifies f
    ensures Written(f[..], s + StoreWord(t, k, Checksum(t)))
  {
    assert f[at..at + n] == t;
    ck := IpChecksum(f, at, n);
    f[at + k] := High(ck);
    f[at + k + 1] := Low(ck);
  }

  lemma ArpPieces(a: seq<byte>, b: seq<byte>, c: seq<byte>, d: seq<byte>, e: seq<byte>, f: seq<byte>, g: seq<byte>)
    ensures [] + a + b + c + d + e + f + g == a + (b + (c + (d + (e + (f + g)))))
  {
    assert e + f + g == e + (f + g);
    assert b + c + (d + (e + (f + g))) == b + (c + (d + (e + (f + g))));
  }

  lemma HeaderPieces(s: seq<byte>, ip0: seq<byte>, a: seq<byte>, b: seq<byte>)
    ensures s + ip0 + a + b == s + (ip0 + (a + b))
  {
  }

  lemma EchoPieces(s: seq<byte>, kind: byte, id: word, sq: word)
    ensures s + [kind, 0, 0, 0, High(id), Low(id), High(sq), Low(sq)] + PAYLOAD == s + Echo0(kind, id, sq)
  {
  }

  lemma IcmpPieces(a: seq<byte>, b: seq<byte>, h: seq<byte>, e: seq<byte>)
    ensures [] + a + b + [0x08, 0] + h + e == a + (b + ([0x08, 0] + (h + e)))
  {
  }
}
