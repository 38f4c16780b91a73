// The receive side of the driver (e1000.c) over its arrays and the device's registers.
//
// The device may store frames between any two statements of e1000_recv.  Whatever happens to the
// arrays is written down as steps of the protocol (RxRing).
module E1000 {
  import opened Options
  import opened Bytes
  import opened RxRing

  // ----- a call of the driver, as steps -----

  // A whole call of e1000_recv, with no device step in between.
  function CallSteps(cap: nat): seq<Step> { [Poll(cap), Copy, Clear, Offer, Advance] }

  function Call(s: System, cap: nat): System
    requires WellShaped(s.ring)
  {
    Run(s, CallSteps(cap))
  }

  // After a call that found a frame.
  function Served(s: System, cap: nat): System
    requires WellShaped(s.ring)
  {
    var r := s.ring;
    s.(ring := r.(desc := r.desc[r.rxCur := r.desc[r.rxCur].(done := false)], rdt := r.rxCur, rxCur := Next(r.rxCur)),
       caps := s.caps + [cap],
       outputs := s.outputs + if Taken(r, cap).Some? then [Taken(r, cap).value] else [])
  }

  lemma RunOfFive(s: System, a: Step, b: Step, c: Step, d: Step, e: Step)
    requires WellShaped(s.ring) && !a.Fill? && !b.Fill? && !c.Fill? && !d.Fill? && !e.Fill?
    ensures Run(s, [a, b, c, d, e]) == Take(Take(Take(Take(Take(s, a), b), c), d), e)
  {
    assert [] + [a] == [a] && [a] + [b] == [a, b] && [a, b] + [c] == [a, b, c];
    assert [a, b, c] + [d] == [a, b, c, d] && [a, b, c, d] + [e] == [a, b, c, d, e];
    RunMore(s, [], a);
    RunMore(s, [a], b);
    RunMore(s, [a, b], c);
    RunMore(s, [a, b, c], d);
    RunMore(s, [a, b, c, d], e);
  }

  // What a call changes, if a frame is there and none arrives meanwhile.
  lemma CallEffect(s: System, cap: nat)
    requires Inv(s) && s.pc.Idle?
    ensures Inv(Call(s, cap))
    ensures Call(s, cap) == if s.ring.desc[s.ring.rxCur].done then Served(s, cap) else s
  {
    RunInv(s, CallSteps(cap));
    RunOfFive(s, Poll(cap), Copy, Clear, Offer, Advance);
  }

  // The frames that arrive after the status has been read, and then after each of the other
  // statements up to the one that moves rx_cur.
  datatype Gaps = Gaps(polled: seq<Frame>, checked: seq<Frame>, measured: seq<Frame>,
                       copied: seq<Frame>, cleared: seq<Frame>, offered: seq<Frame>)

  predicate AllFit(fs: seq<Frame>) {
    forall i :: 0 <= i < |fs| ==> Fits(fs[i])
  }

  predicate GapsFit(g: Gaps) {
    AllFit(g.polled) && AllFit(g.checked) && AllFit(g.measured) && AllFit(g.copied) && AllFit(g.cleared) && AllFit(g.offered)
  }

  function Fills(fs: seq<Frame>): (steps: seq<Step>)
    ensures |steps| == |fs| && forall i :: 0 <= i < |fs| ==> steps[i] == Fill(fs[i])
  {
    seq(|fs|, i requires 0 <= i < |fs| => Fill(fs[i]))
  }

  // A call that finds a frame, with the frames that arrive meanwhile.
  function FetchSteps(g: Gaps): (steps: seq<Step>)
    ensures GapsFit(g) ==> Admissible(steps)
  {
    Fills(g.polled) + Fills(g.checked) + Fills(g.measured) + [Copy]
  }

  function ReleaseSteps(g: Gaps): (steps: seq<Step>)
    ensures GapsFit(g) ==> Admissible(steps)
  {
    [Clear] + Fills(g.cleared) + [Offer] + Fills(g.offered) + [Advance]
  }

  function Woven(cap: nat, g: Gaps): (steps: seq<Step>)
    ensures GapsFit(g) ==> Admissible(steps)
  {
    [Poll(cap)] + FetchSteps(g) + Fills(g.copied) + ReleaseSteps(g)
  }

  // The steps of a call in state s.
  function RecvSteps(s: System, cap: nat, g: Gaps): (steps: seq<Step>)
    requires WellShaped(s.ring)
    ensures GapsFit(g) ==> Admissible(steps)
  {
    if s.ring.desc[s.ring.rxCur].done then Woven(cap, g) else [Poll(cap)]
  }

  lemma OneMoreFill(steps: seq<Step>, fs: seq<Frame>, i: nat)
    requires i < |fs|
    ensures steps + Fills(fs[..i + 1]) == steps + Fills(fs[..i]) + [Fill(fs[i])]
  {
  }

  lemma Regroup(s: seq<Step>, a: seq<Step>, b: seq<Step>, c: seq<Step>, d: seq<Step>)
    ensures s + a + b + c + d == s + (a + b + c + d)
  {
  }

  lemma RegroupRelease(s: seq<Step>, g: Gaps)
    ensures s + [Clear] + Fills(g.cleared) + [Offer] + Fills(g.offered) + [Advance] == s + ReleaseSteps(g)
  {
  }

  // No frame has left, though some may have come.
  predicate SameFrames(s: System, s': System) {
    s'.caps == s.caps && s.arrived <= s'.arrived
  }

  // The driver stands where it stood, and still has before it the frame that it has seen.
  predicate Undisturbed(s: System, s': System)
    requires WellShaped(s.ring) && WellShaped(s'.ring)
  {
    && s'.pc == s.pc && s'.outputs == s.outputs && SameFrames(s, s')
    && (s.pc.Seen? ==>
          var i := s.ring.rxCur;
          s'.ring.rxCur == i && s'.ring.desc[i] == s.ring.desc[i] && s'.ring.bufs[i] == s.ring.bufs[i])
  }

  lemma StaysOn(s: System, s': System, f: Frame)
    requires Inv(s') && Fits(f) && WellShaped(s.ring) && Undisturbed(s, s')
    ensures Undisturbed(s, Take(s', Fill(f)))
  {
    if s.pc.Seen? {
      SeenStays(s', f);
    }
  }

  lemma AfterFirst(f: Frame)
    requires |f.data| <= 2048
    ensures Admissible([Fill(f)])
    ensures var s := Run(Init(), [Fill(f)]);
      Inv(s) && s.pc.Idle? && s.arrived == [f] && s.caps == [] && s.outputs == [] && s.ring.desc[s.ring.rxCur].done
  {
    InitInv();
    StepInv(Init(), Fill(f));
    RunMore(Init(), [], Fill(f));
    assert [] + [Fill(f)] == [Fill(f)];
  }

  // A first frame of up to 2048 bytes, CRC included, is what the first call hands out.
  lemma FirstFrame(payload: seq<byte>, crc: seq<byte>)
    requires |crc| == 4 && 56 < |payload| <= 2044
    ensures var f := Frame(payload + crc, 0);
      Admissible([Fill(f)]) && Call(Run(Init(), [Fill(f)]), 2048).outputs == [payload]
  {
    var f := Frame(payload + crc, 0);
    AfterFirst(f);
    var s := Run(Init(), [Fill(f)]);
    CallEffect(s, 2048);
    var s' := Call(s, 2048);
    ServedFirst(s'.outputs, s'.arrived, s'.caps, f, payload);
  }

  lemma ServedFirst(outputs: seq<seq<byte>>, arrived: seq<Frame>, caps: seq<nat>, f: Frame, payload: seq<byte>)
    requires arrived == [f] && caps == [2048] && SentAs(f, 2048, payload)
    requires outputs == Delivered(arrived[..|caps|], caps)
    ensures outputs == [payload]
  {
    PayloadsComeOut([f], [2048], [payload]);
    assert arrived[..|caps|] == [f];
  }

  // What a call of e1000_recv in state s says: nothing if no frame waits or the next one is broken,
  // and otherwise the right part of it.
  ghost predicate Told(s: System, cap: nat, got: Option<seq<byte>>) {
    var c := |s.caps|;
    && (got.Some? <==> c < |s.arrived| && s.arrived[c].errors == 0)
    && (got.Some? ==> RightPart(s.arrived[c], cap, got.value))
  }

  class Nic {
    const rxRing: array<Desc>
    const rxBufs: array<seq<byte>>
    var rdh: nat
    var rdt: nat
    var rxCur: nat
    var ok: bool
    ghost var steps: seq<Step>

    // What the protocol says the state is.
    ghost function State(): System
      requires Admissible(steps)
      reads this
    {
      Run(Init(), steps)
    }

    ghost predicate Valid()
      reads this, rxRing, rxBufs
    {
      Admissible(steps) && Ring(rxRing[..], rxBufs[..], rdh, rdt, rxCur) == State().ring
    }

    // The receive part of e1000_init, once the link is up.
    constructor ()
      ensures Valid() && steps == [] && ok
      ensures fresh(rxRing) && fresh(rxBufs)
    {
      rxRing := new Desc[RX_N](_ => Desc(0, 0, false));
      rxBufs := new seq<byte>[RX_N](_ => seq(RX_BUF, _ => 0));
      rdh, rdt, rxCur, ok, steps := 0, RX_N - 1, 0, true, [];
      new;
      assert rxRing[..] == InitRing().desc && rxBufs[..] == InitRing().bufs;
    }

    lemma Safe()
      requires Valid()
      ensures Inv(State())
    {
      InitInv();
      RunInv(Init(), steps);
    }

    // ----- the device -----

    method Store(f: Frame)
      requires Valid() && Fits(f)
      modifies this`rdh, this`steps, rxRing, rxBufs
      ensures Valid() && steps == old(steps) + [Fill(f)] && State() == Take(old(State()), Fill(f))
    {
      RunMore(Init(), steps, Fill(f));
      steps := steps + [Fill(f)];
      if rdh != rdt {
        rxBufs[rdh] := f.data + rxBufs[rdh][|f.data|..];
        rxRing[rdh] := Desc(|f.data|, f.errors, true);
        rdh := Next(rdh);
      }
    }

    method Arrive(fs: seq<Frame>)
      requires Valid() && AllFit(fs)
      modifies this`rdh, this`steps, rxRing, rxBufs
      ensures Valid() && steps == old(steps) + Fills(fs)
      ensures Undisturbed(old(State()), State())
    {
      ghost var s := State();
      for i := 0 to |fs|
        invariant Valid() && steps == old(steps) + Fills(fs[..i])
        invariant Undisturbed(s, State())
      {
        Safe();
        StaysOn(s, State(), fs[i]);
        OneMoreFill(old(steps), fs, i);
        Store(fs[i]);
      }
      assert fs[..|fs|] == fs;
    }

    // ----- the statements of e1000_recv -----

    // d->status & RX_STA_DD
    method Look(cap: nat) returns (found: bool)
      requires Valid() && State().pc.Idle?
      modifies this`steps
      ensures Valid() && steps == old(steps) + [Poll(cap)] && found == old(State().ring.desc[rxCur].done)
      ensures State().pc == if found then Seen(cap) else Idle
      ensures State().outputs == old(State()).outputs && SameFrames(old(State()), State())
    {
      RunMore(Init(), steps, Poll(cap));
      found := rxRing[rxCur].done;
      steps := steps + [Poll(cap)];
    }

    // What e1000_recv keeps of a frame of that length.
    method Measure(cap: nat) returns (n: nat)
      requires rxCur < rxRing.Length
      ensures n == Kept(rxRing[rxCur].length, cap)
    {
      n := rxRing[rxCur].length;
      if n > cap {
        n := cap;
      }
      if n >= 4 && n > 60 {
        n := n - 4;
      }
    }

    // The copy of the buffer, unless the frame is broken.
    method CopyOut(out: array<byte>, cap: nat, sound: bool, n: nat)
      requires Valid() && cap <= out.Length && State().pc == Seen(cap)
      requires Taken(State().ring, cap).Some? == sound && (sound ==> n == |Taken(State().ring, cap).value|)
      modifies this`steps, out
      ensures Valid() && steps == old(steps) + [Copy] && (sound ==> n <= cap)
      ensures State().pc == Holding(cap, if sound then Some(out[..n]) else None)
      ensures State().outputs == old(State()).outputs && SameFrames(old(State()), State())
      ensures out[if sound then n else 0..] == old(out[if sound then n else 0..])
    {
      RunMore(Init(), steps, Copy);
      if sound {
        var frame := rxBufs[rxCur][..n];
        Put(out, 0, frame);
        assert out[..n] == out[..][..n] == frame;
      }
      steps := steps + [Copy];
    }

    // d->errors, d->length and the copy, with frames arriving before and in between.
    method Fetch(out: array<byte>, cap: nat, g: Gaps) returns (sound: bool, n: nat)
      requires Valid() && cap <= out.Length && State().pc == Seen(cap) && GapsFit(g)
      modifies this`rdh, this`steps, rxRing, rxBufs, out
      ensures Valid() && steps == old(steps) + FetchSteps(g) && (sound ==> n <= cap)
      ensures State().pc == Holding(cap, if sound then Some(out[..n]) else None)
      ensures State().outputs == old(State()).outputs && SameFrames(old(State()), State())
      ensures out[if sound then n else 0..] == old(out[if sound then n else 0..])
    {
      Regroup(steps, Fills(g.polled), Fills(g.checked), Fills(g.measured), [Copy]);
      Arrive(g.polled);
      n := 0;
      sound := rxRing[rxCur].errors == 0;
      Arrive(g.checked);
      if sound {
        n := Measure(cap);
      }
      Arrive(g.measured);
      CopyOut(out, cap, sound, n);
    }

    // d->status = 0
    method Reset()
      requires Valid() && State().pc.Holding?
      modifies this`steps, rxRing
      ensures Valid() && steps == old(steps) + [Clear]
    {
      RunMore(Init(), steps, Clear);
      rxRing[rxCur] := rxRing[rxCur].(done := false);
      steps := steps + [Clear];
    }

    // wr(R_RDT, rx_cur)
    method HandBack()
      requires Valid() && State().pc.Cleared?
      modifies this`steps, this`rdt
      ensures Valid() && steps == old(steps) + [Offer]
    {
      RunMore(Init(), steps, Offer);
      rdt := rxCur;
      steps := steps + [Offer];
    }

    // rx_cur = (rx_cur + 1) % RX_N
    method MoveOn()
      requires Valid() && State().pc.Offered?
      modifies this`steps, this`rxCur
      ensures Valid() && steps == old(steps) + [Advance]
    {
      RunMore(Init(), steps, Advance);
      rxCur := (rxCur + 1) % RX_N;
      steps := steps + [Advance];
    }

    // e1000_recv: -1 without a card, 1 with a frame in out[..n], 0 otherwise.  The frames of g arrive
    // while it runs.
    method Recv(out: array<byte>, cap: nat, g: Gaps) returns (r: int, n: nat)
      requires Valid() && State().pc.Idle? && cap <= out.Length && GapsFit(g)
      modifies this`rdh, this`rdt, this`rxCur, this`steps, rxRing, rxBufs, out
      ensures Valid() && State().pc.Idle? && (r == -1 <==> !ok) && -1 <= r <= 1 && (r == 1 ==> n <= cap)
      ensures steps == old(steps) + if ok then RecvSteps(old(State()), cap, g) else []
      ensures State().outputs == old(State()).outputs + if r == 1 then [out[..n]] else []
      ensures out[if r == 1 then n else 0..] == old(out[if r == 1 then n else 0..])
      ensures ok ==> Told(old(State()), cap, if r == 1 then Some(out[..n]) else None)
    {
      r, n := 0, 0;
      Safe();
      ghost var s := State();
      if !ok {
        return -1, 0;
      }
      Regroup(steps, [Poll(cap)], FetchSteps(g), Fills(g.copied), ReleaseSteps(g));
      Waits(s);
      var found := Look(cap);
      if !found {
        return;
      }
      var sound;
      sound, n := Fetch(out, cap, g);
      Safe();
      HandsOutTheRightPart(s.arrived[|s.caps|], cap);
      Arrive(g.copied);
      Release(g);
      r := if sound then 1 else 0;
    }

    // The statements that give the descriptor back, with frames arriving in between.
    method Release(g: Gaps)
      requires Valid() && State().pc.Holding? && GapsFit(g)
      modifies this`rdh, this`rdt, this`rxCur, this`steps, rxRing, rxBufs
      ensures Valid() && State().pc.Idle?
      ensures steps == old(steps) + ReleaseSteps(g)
      ensures State().outputs == old(State()).outputs + match old(State()).pc.out case Some(f) => [f] case None => []
    {
      RegroupRelease(steps, g);
      Reset();
      Arrive(g.cleared);
      HandBack();
      Arrive(g.offered);
      MoveOn();
    }
  }

  // ----- a whole session -----

  // What happens to the card: a frame arrives between two calls, or the driver asks for one, with
  // frames arriving meanwhile.
  datatype Event = Arrives(f: Frame) | Asks(cap: nat, g: Gaps)

  predicate Fitting(events: seq<Event>) {
    forall i :: 0 <= i < |events| ==> match events[i] case Arrives(f) => Fits(f) case Asks(_, g) => GapsFit(g)
  }

  // The steps of a session, from the set-up of the card on.
  function StepsOf(events: seq<Event>): (steps: seq<Step>)
    requires Fitting(events)
    ensures Admissible(steps)
  {
    if events == [] then []
    else
      var n := |events| - 1;
      var before := StepsOf(events[..n]);
      before + match events[n]
               case Arrives(f) => [Fill(f)]
               case Asks(cap, g) => RecvSteps(Run(Init(), before), cap, g)
  }

  // Frames arrive at any time, also in the middle of a call, and are asked for in any order: what
  // the driver gets is what the protocol hands out, so the sound frames once each and in order.
  method Session(events: seq<Event>) returns (got: seq<seq<byte>>)
    requires Fitting(events)
    ensures var s := Run(Init(), StepsOf(events));
      got == s.outputs && |s.caps| <= |s.arrived| && got == Delivered(s.arrived[..|s.caps|], s.caps)
  {
    var nic := new Nic();
    got := [];
    for i := 0 to |events|
      invariant nic.Valid() && nic.State().pc.Idle? && nic.ok
      invariant fresh(nic) && fresh(nic.rxRing) && fresh(nic.rxBufs)
      invariant nic.steps == StepsOf(events[..i]) && got == nic.State().outputs
    {
      assert events[..i + 1][..i] == events[..i];
      match events[i]
      case Arrives(f) =>
        nic.Store(f);
      case Asks(cap, g) =>
        var buffer := new byte[cap];
        var r, n := nic.Recv(buffer, cap, g);
        if r == 1 {
          got := got + [buffer[..n]];
        }
    }
    assert events[..|events|] == events;
    RingIsSafe(StepsOf(events));
  }
}
