// The receive ring of the e1000: 32 descriptors shared by the device, which fills them, and the
// driver, which empties them (section 3.2.6 of the Intel 8254x Software Developer's Manual).
//
// Device and driver take turns in any order.  The driver reads the status, reads the descriptor and
// its buffer, clears the status, and writes RDT, each in a step of its own.
module RxRing {
  import opened Options
  import opened Bytes

  const RX_N: nat := 32
  const RX_BUF: nat := 2048

  // A frame as the device received it; a nonzero error byte marks it as broken.
  datatype Frame = Frame(data: seq<byte>, errors: byte)

  datatype Desc = Desc(length: nat, errors: byte, done: bool)

  datatype Ring = Ring(desc: seq<Desc>, bufs: seq<seq<byte>>, rdh: nat, rdt: nat, rxCur: nat)

  // Where e1000_recv stands: it has seen a status set, then taken the frame, then cleared the status,
  // then written RDT.
  datatype Pc =
    | Idle
    | Seen(cap: nat)
    | Holding(cap: nat, out: Option<seq<byte>>)
    | Cleared(cap: nat, out: Option<seq<byte>>)
    | Offered(cap: nat, out: Option<seq<byte>>)

  // The ring, the driver, and what has happened so far: the frames stored, and for each frame
  // that the driver is done with the room it had for it; and the frames handed out.
  datatype System = System(ring: Ring, pc: Pc, arrived: seq<Frame>, caps: seq<nat>, outputs: seq<seq<byte>>)

  datatype Step = Fill(f: Frame) | Poll(cap: nat) | Copy | Clear | Offer | Advance

  // ----- the steps -----

  predicate Fits(f: Frame) { |f.data| <= RX_BUF }

  predicate WellShaped(r: Ring) {
    && |r.desc| == RX_N && |r.bufs| == RX_N && r.rdh < RX_N && r.rdt < RX_N && r.rxCur < RX_N
    && (forall i :: 0 <= i < RX_N ==> |r.bufs[i]| == RX_BUF)
    && (forall i :: 0 <= i < RX_N ==> r.desc[i].length <= RX_BUF)
  }

  // e1000_init
  function InitRing(): (r: Ring)
    ensures WellShaped(r)
  {
    Ring(seq(RX_N, _ => Desc(0, 0, false)), seq(RX_N, _ => seq(RX_BUF, _ => 0)), 0, RX_N - 1, 0)
  }

  function Init(): System {
    System(InitRing(), Idle, [], [], [])
  }

  function Next(i: nat): nat {
    (i + 1) % RX_N
  }

  // The device stores a frame at RDH, unless RDH has caught up with RDT.
  function DeviceFill(r: Ring, f: Frame): (r': Ring)
    requires WellShaped(r) && Fits(f)
    ensures WellShaped(r')
  {
    if r.rdh == r.rdt then r
    else
      var b := f.data + r.bufs[r.rdh][|f.data|..];
      r.(desc := r.desc[r.rdh := Desc(|f.data|, f.errors, true)], bufs := r.bufs[r.rdh := b], rdh := Next(r.rdh))
  }

  // How much of a frame e1000_recv keeps: what fits, less the 4 bytes of CRC of a long frame.
  function Kept(length: nat, cap: nat): (n: nat)
    ensures n <= length && n <= cap
  {
    var n := if length > cap then cap else length;
    if n > 60 then n - 4 else n
  }

  // What e1000_recv makes of the descriptor at rx_cur: nothing of a broken frame.
  function Taken(r: Ring, cap: nat): Option<seq<byte>>
    requires WellShaped(r)
  {
    var d := r.desc[r.rxCur];
    if d.errors != 0 then None else Some(r.bufs[r.rxCur][..Kept(d.length, cap)])
  }

  function ClearStatus(r: Ring): (r': Ring)
    requires WellShaped(r)
    ensures WellShaped(r')
  {
    r.(desc := r.desc[r.rxCur := r.desc[r.rxCur].(done := false)])
  }

  function Take(s: System, step: Step): (s': System)
    requires WellShaped(s.ring) && (step.Fill? ==> Fits(step.f))
    ensures WellShaped(s'.ring)
  {
    match step
    case Fill(f) =>
      if s.ring.rdh == s.ring.rdt then s else s.(ring := DeviceFill(s.ring, f), arrived := s.arrived + [f])
    case Poll(cap) =>
      if s.pc.Idle? && s.ring.desc[s.ring.rxCur].done then s.(pc := Seen(cap)) else s
    case Copy =>
      if s.pc.Seen? then s.(pc := Holding(s.pc.cap, Taken(s.ring, s.pc.cap))) else s
    case Clear =>
      if s.pc.Holding? then s.(ring := ClearStatus(s.ring), pc := Cleared(s.pc.cap, s.pc.out)) else s
    case Offer =>
      if s.pc.Cleared? then s.(ring := s.ring.(rdt := s.ring.rxCur), pc := Offered(s.pc.cap, s.pc.out)) else s
    case Advance =>
      if s.pc.Offered? then
        s.(ring := s.ring.(rxCur := Next(s.ring.rxCur)), pc := Idle, caps := s.caps + [s.pc.cap],
           outputs := s.outputs + if s.pc.out.Some? then [s.pc.out.value] else [])
      else s
  }

  predicate Admissible(steps: seq<Step>) {
    forall i :: 0 <= i < |steps| ==> (steps[i].Fill? ==> Fits(steps[i].f))
  }

  function Run(s: System, steps: seq<Step>): (s': System)
    requires WellShaped(s.ring) && Admissible(steps)
    ensures WellShaped(s'.ring)
  {
    if steps == [] then s else Take(Run(s, steps[..|steps| - 1]), steps[|steps| - 1])
  }

  lemma RunMore(s: System, steps: seq<Step>, step: Step)
    requires WellShaped(s.ring) && Admissible(steps) && (step.Fill? ==> Fits(step.f))
    ensures Admissible(steps + [step]) && Run(s, steps + [step]) == Take(Run(s, steps), step)
  {
    assert (steps + [step])[..|steps|] == steps;
  }

  // ----- what is promised -----

  function Handed(f: Frame, cap: nat): seq<seq<byte>> {
    if f.errors != 0 then [] else [f.data[..Kept(|f.data|, cap)]]
  }

  // The sound frames among those the driver is done with, in the order of their arrival.
  function Delivered(frames: seq<Frame>, caps: seq<nat>): seq<seq<byte>>
    requires |frames| == |caps|
  {
    if frames == [] then []
    else Delivered(frames[..|frames| - 1], caps[..|caps| - 1]) + Handed(frames[|frames| - 1], caps[|caps| - 1])
  }

  // Slot i holds frame f.
  predicate Stored(r: Ring, i: nat, f: Frame)
    requires WellShaped(r) && i < RX_N
  {
    && r.desc[i].length == |f.data| && r.desc[i].errors == f.errors
    && |f.data| <= RX_BUF && r.bufs[i][..|f.data|] == f.data
  }

  predicate StatusCleared(pc: Pc) { pc.Cleared? || pc.Offered? }

  // Frame k lives in slot k mod 32 from its arrival until the driver offers the slot again.
  ghost predicate Inv(s: System) {
    && WellShaped(s.ring)
    && var c, n, r := |s.caps|, |s.arrived|, s.ring;
    && var first := c + if StatusCleared(s.pc) then 1 else 0;
    && c <= n <= c + (if s.pc.Offered? then 32 else 31)
    && r.rxCur == c % RX_N && r.rdh == n % RX_N
    && r.rdt == (if s.pc.Offered? then c else c + 31) % RX_N
    && (forall k: nat :: c <= k < n && !(s.pc.Offered? && k == c) ==> Stored(r, k % RX_N, s.arrived[k]))
    && (forall k: nat :: first <= k < n ==> r.desc[k % RX_N].done)
    && (forall k: nat :: n <= k < first + 32 ==> !r.desc[k % RX_N].done)
    && (!s.pc.Idle? ==> c < n && (!s.pc.Seen? ==> s.pc.out == OutOf(s.arrived[c], s.pc.cap)))
    && s.outputs == Delivered(s.arrived[..c], s.caps)
  }

  function OutOf(f: Frame, cap: nat): Option<seq<byte>> {
    if f.errors != 0 then None else Some(f.data[..Kept(|f.data|, cap)])
  }

  // The part of a sound frame that a caller with room for cap bytes is to get.  A frame of at most 60
  // bytes has no CRC, and a longer one has 4 bytes of it at its end.
  predicate RightPart(f: Frame, cap: nat, part: seq<byte>) {
    && part <= f.data
    && (|f.data| <= cap ==> |f.data| == |part| + if |f.data| <= 60 then 0 else 4)
    && (cap < |f.data| ==> cap == |part| + if cap <= 60 then 0 else 4)
  }

  lemma HandsOutTheRightPart(f: Frame, cap: nat)
    ensures f.errors != 0 ==> Handed(f, cap) == []
    ensures f.errors == 0 ==> |Handed(f, cap)| == 1 && RightPart(f, cap, Handed(f, cap)[0])
    ensures Handed(f, cap) == match OutOf(f, cap) case Some(part) => [part] case None => []
  {
  }

  // A long frame comes out as what it was sent with, a short one as it is.
  lemma PayloadIsHandedOut(payload: seq<byte>, crc: seq<byte>, cap: nat)
    requires |crc| == 4 && |payload| + 4 <= cap
    ensures |payload| > 56 ==> Handed(Frame(payload + crc, 0), cap) == [payload]
    ensures |payload| <= 56 ==> Handed(Frame(payload + crc, 0), cap) == [payload + crc]
  {
    var f := Frame(payload + crc, 0);
    HandsOutTheRightPart(f, cap);
    assert (payload + crc)[..|payload|] == payload;
    if |payload| <= 56 {
      assert f.data[..|f.data|] == f.data;
    }
  }

  // What was sent: long frames with their CRC, each with room for it.
  predicate SentAs(f: Frame, cap: nat, payload: seq<byte>) {
    f.errors == 0 && |payload| > 56 && |f.data| == |payload| + 4 <= cap && payload <= f.data
  }

  // If all frames are sound, long, and have room, then the payloads come out in order, none missing.
  lemma {:induction false} PayloadsComeOut(frames: seq<Frame>, caps: seq<nat>, payloads: seq<seq<byte>>)
    requires |frames| == |caps| == |payloads|
    requires forall i :: 0 <= i < |frames| ==> SentAs(frames[i], caps[i], payloads[i])
    ensures Delivered(frames, caps) == payloads
  {
    if frames != [] {
      var n := |frames| - 1;
      PayloadsComeOut(frames[..n], caps[..n], payloads[..n]);
      var f := frames[n];
      PayloadIsHandedOut(payloads[n], f.data[|payloads[n]|..], caps[n]);
      assert f == Frame(payloads[n] + f.data[|payloads[n]|..], 0);
      assert payloads == payloads[..n] + [payloads[n]];
    }
  }

  lemma InitInv()
    ensures Inv(Init())
  {
  }

  // Slots of a stretch of 32 are distinct.
  lemma SlotsDiffer(a: nat, b: nat)
    requires a < b < a + 32
    ensures a % RX_N != b % RX_N
  {
  }

  lemma NextSlot(a: nat)
    ensures Next(a % RX_N) == (a + 1) % RX_N && (a + 32) % RX_N == a % RX_N
  {
  }

  lemma FillInv(s: System, f: Frame)
    requires Inv(s) && Fits(f)
    ensures Inv(Take(s, Fill(f)))
  {
    var c, n, r := |s.caps|, |s.arrived|, s.ring;
    if r.rdh != r.rdt {
      var s' := Take(s, Fill(f));
      var first := c + if StatusCleared(s.pc) then 1 else 0;
      RoomLeft(c, n, s.pc.Offered?);
      NextSlot(n);
      assert s'.arrived[..c] == s.arrived[..c];
      assert s'.ring.bufs[n % RX_N][..|f.data|] == f.data;
      forall k: nat | c <= k < n && !(s.pc.Offered? && k == c)
        ensures Stored(s'.ring, k % RX_N, s'.arrived[k])
      {
        SlotsDiffer(k, n);
      }
      forall k: nat | first <= k < n ensures s'.ring.desc[k % RX_N].done {
        SlotsDiffer(k, n);
      }
      forall k: nat | n + 1 <= k < first + 32 ensures !s'.ring.desc[k % RX_N].done {
        SlotsDiffer(n, k);
      }
    }
  }

  // RDH differs from RDT just while fewer frames than allowed are stored.
  lemma RoomLeft(c: nat, n: nat, offered: bool)
    requires c <= n <= c + (if offered then 32 else 31)
    requires offered ==> c < n
    ensures n % RX_N == (if offered then c else c + 31) % RX_N <==> n == c + if offered then 32 else 31
  {
    var limit := if offered then c + 32 else c + 31;
    if n < limit {
      SlotsDiffer(n, limit);
    }
  }

  lemma PollInv(s: System, cap: nat)
    requires Inv(s)
    ensures Inv(Take(s, Poll(cap)))
  {
    var c, n := |s.caps|, |s.arrived|;
    if s.pc.Idle? && s.ring.desc[s.ring.rxCur].done {
      assert c < n;
    }
  }

  lemma CopyInv(s: System)
    requires Inv(s)
    ensures Inv(Take(s, Copy))
  {
    if s.pc.Seen? {
      var c, cap := |s.caps|, s.pc.cap;
      assert Stored(s.ring, c % RX_N, s.arrived[c]);
      var f := s.arrived[c];
      assert s.ring.bufs[c % RX_N][..|f.data|][..Kept(|f.data|, cap)] == s.ring.bufs[c % RX_N][..Kept(|f.data|, cap)];
    }
  }

  lemma ClearInv(s: System)
    requires Inv(s)
    ensures Inv(Take(s, Clear))
  {
    if s.pc.Holding? {
      var c, n, s' := |s.caps|, |s.arrived|, Take(s, Clear);
      forall k: nat | c + 1 <= k < n ensures s'.ring.desc[k % RX_N].done {
        SlotsDiffer(c, k);
      }
      forall k: nat | n <= k < c + 33 ensures !s'.ring.desc[k % RX_N].done {
        if k < c + 32 {
          SlotsDiffer(c, k);
        } else {
          NextSlot(c);
        }
      }
    }
  }

  lemma OfferInv(s: System)
    requires Inv(s)
    ensures Inv(Take(s, Offer))
  {
  }

  lemma AdvanceInv(s: System)
    requires Inv(s)
    ensures Inv(Take(s, Advance))
  {
    if s.pc.Offered? {
      var c, s' := |s.caps|, Take(s, Advance);
      NextSlot(c);
      assert s.arrived[..c + 1][..c] == s.arrived[..c];
      assert s'.caps[..c] == s.caps;
      assert s'.outputs == Delivered(s.arrived[..c + 1], s'.caps);
    }
  }

  lemma StepInv(s: System, step: Step)
    requires Inv(s) && (step.Fill? ==> Fits(step.f))
    ensures Inv(Take(s, step))
  {
    match step
    case Fill(f) => FillInv(s, f);
    case Poll(cap) => PollInv(s, cap);
    case Copy => CopyInv(s);
    case Clear => ClearInv(s);
    case Offer => OfferInv(s);
    case Advance => AdvanceInv(s);
  }

  lemma {:induction false} RunInv(s: System, steps: seq<Step>)
    requires Inv(s) && Admissible(steps)
    ensures Inv(Run(s, steps))
  {
    if steps != [] {
      var n := |steps| - 1;
      RunInv(s, steps[..n]);
      StepInv(Run(s, steps[..n]), steps[n]);
    }
  }

  // The frames that are not handed back yet.
  function Pending(s: System): int {
    |s.arrived| - |s.caps| - if s.pc.Offered? then 1 else 0
  }

  // However device and driver interleave: the sound frames come out once each and in order, at
  // most 31 are pending, and between calls RDT lies one behind rx_cur.
  lemma RingIsSafe(steps: seq<Step>)
    requires Admissible(steps)
    ensures var s := Run(Init(), steps);
      && |s.caps| <= |s.arrived|
      && s.outputs == Delivered(s.arrived[..|s.caps|], s.caps)
      && 0 <= Pending(s) <= 31
      && (s.pc.Idle? ==> Next(s.ring.rdt) == s.ring.rxCur)
  {
    InitInv();
    RunInv(Init(), steps);
    var s := Run(Init(), steps);
    if s.pc.Idle? {
      NextSlot(|s.caps| + 31);
      NextSlot(|s.caps|);
    }
  }

  // The frame that a call has seen stays in its slot while the device goes on.
  lemma SeenStays(s: System, f: Frame)
    requires Inv(s) && s.pc.Seen? && Fits(f)
    ensures var s' := Take(s, Fill(f));
      && s'.pc == s.pc && s'.ring.rxCur == s.ring.rxCur
      && s'.ring.bufs[s.ring.rxCur] == s.ring.bufs[s.ring.rxCur]
      && s'.ring.desc[s.ring.rxCur] == s.ring.desc[s.ring.rxCur]
  {
    RoomLeft(|s.caps|, |s.arrived|, false);
    if s.ring.rdh != s.ring.rdt {
      SlotsDiffer(|s.caps|, |s.arrived|);
    }
  }

  // While a call of e1000_recv holds a frame, the device does not store another one in its buffer,
  // nor in that of any frame still waiting.
  lemma NoEarlyRefill(steps: seq<Step>, f: Frame, k: nat)
    requires Admissible(steps) && Fits(f)
    requires var s := Run(Init(), steps); |s.caps| <= k < |s.arrived| && !(s.pc.Offered? && k == |s.caps|)
    ensures var s := Run(Init(), steps);
      var s' := Take(s, Fill(f));
      s'.ring.bufs[k % RX_N] == s.ring.bufs[k % RX_N] && s'.ring.desc[k % RX_N] == s.ring.desc[k % RX_N]
  {
    InitInv();
    RunInv(Init(), steps);
    var s := Run(Init(), steps);
    RoomLeft(|s.caps|, |s.arrived|, s.pc.Offered?);
    if s.ring.rdh != s.ring.rdt {
      SlotsDiffer(k, |s.arrived|);
    }
  }

  lemma Waits(s: System)
    requires Inv(s) && s.pc.Idle?
    ensures s.ring.desc[s.ring.rxCur].done <==> |s.caps| < |s.arrived|
  {
    var c, n := |s.caps|, |s.arrived|;
    if c == n {
      assert !s.ring.desc[n % RX_N].done;
    } else {
      assert s.ring.desc[c % RX_N].done;
    }
  }

  // A call finds nothing exactly when nothing waits, and a frame is lost exactly when 31 wait.
  lemma NothingIsMissed(steps: seq<Step>, cap: nat, f: Frame)
    requires Admissible(steps) && Fits(f) && Run(Init(), steps).pc.Idle?
    ensures var s := Run(Init(), steps);
      && (Take(s, Poll(cap)).pc.Seen? <==> |s.caps| < |s.arrived|)
      && (Take(s, Fill(f)).arrived == s.arrived + [f] <==> |s.arrived| - |s.caps| < 31)
  {
    InitInv();
    RunInv(Init(), steps);
    var s := Run(Init(), steps);
    var c, n := |s.caps|, |s.arrived|;
    RoomLeft(c, n, false);
    Waits(s);
  }
}
