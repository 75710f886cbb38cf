/** Index allocation, sending, and waiting for frames on one or two network ports: a single break of
    the ring is invisible to whoever waits. */
module Redundancy {
  import opened Basics
  import opened Bytes
  import opened Transport
  import opened Interleaving

  // ----- index allocation

  function Next(i: nat): (j: nat)
    requires i < EC_MAXBUF
    ensures j < EC_MAXBUF
  {
    if i + 1 >= EC_MAXBUF then 0 else i + 1
  }

  function Ahead(i: nat, k: nat): (j: nat)
    requires i < EC_MAXBUF
    ensures j < EC_MAXBUF
    decreases k
  {
    if k == 0 then i else Ahead(Next(i), k - 1)
  }

  lemma {:induction false} AheadIsModulo(i: nat, k: nat)
    requires i < EC_MAXBUF && k <= EC_MAXBUF
    ensures Ahead(i, k) == (i + k) % EC_MAXBUF
    decreases k
  {
    if k > 0 { AheadIsModulo(Next(i), k - 1); }
  }

  /** First empty slot in ring order from i, looking at n slots; where the search stops if none is. */
  function FreeFrom(stat: seq<BufState>, i: nat, n: nat): (r: nat)
    requires |stat| == EC_MAXBUF && i < EC_MAXBUF
    ensures r < EC_MAXBUF
    decreases n
  {
    if n == 0 || stat[i] == Empty then i else FreeFrom(stat, Next(i), n - 1)
  }

  /** A busy slot is handed out only when all 16 are busy. */
  lemma {:induction false} NoBusySlotWhileOneIsFree(stat: seq<BufState>, i: nat, n: nat, free: nat)
    requires |stat| == EC_MAXBUF && i < EC_MAXBUF && free < n <= EC_MAXBUF && stat[Ahead(i, free)] == Empty
    ensures stat[FreeFrom(stat, i, n)] == Empty
    decreases n
  {
    if stat[i] != Empty { NoBusySlotWhileOneIsFree(stat, Next(i), n - 1, free - 1); }
  }

  lemma SomeFreeIsFound(stat: seq<BufState>, i: nat, slot: nat)
    requires |stat| == EC_MAXBUF && i < EC_MAXBUF && slot < EC_MAXBUF && stat[slot] == Empty
    ensures stat[FreeFrom(stat, i, EC_MAXBUF)] == Empty
  {
    var free := if slot >= i then slot - i else slot + EC_MAXBUF - i;
    AheadIsModulo(i, free);
    NoBusySlotWhileOneIsFree(stat, i, EC_MAXBUF, free);
  }

  /** The k slots from i on are busy. */
  predicate BusyRun(stat: seq<BufState>, i: nat, k: nat)
    requires |stat| == EC_MAXBUF && i < EC_MAXBUF
    decreases k
  {
    k == 0 || (stat[i] != Empty && BusyRun(stat, Next(i), k - 1))
  }

  /** With the first k slots behind the last index busy and the next one free, that one is handed
      out: a burst of up to 16 frames gets indices in turn. */
  lemma {:induction false} HandedOutInTurn(stat: seq<BufState>, i: nat, n: nat, k: nat)
    requires |stat| == EC_MAXBUF && i < EC_MAXBUF && k < n <= EC_MAXBUF
    requires BusyRun(stat, i, k) && stat[Ahead(i, k)] == Empty
    ensures FreeFrom(stat, i, n) == Ahead(i, k)
    decreases k
  {
    if k > 0 { HandedOutInTurn(stat, Next(i), n - 1, k - 1); }
  }

  // ----- waiting on one stack

  /** Up to n receive calls for idx, until one returns a work counter. */
  function Waiting(s: Stack, idx: nat, n: nat): (r: (Stack, int))
    requires Valid(s) && idx < EC_MAXBUF
    ensures Valid(r.0)
    decreases n
  {
    StepsKeepValid(s, idx);
    if n == 0 then (s, EC_NOFRAME)
    else
      var (s', rval) := InFrameOf(s, idx);
      if rval > EC_NOFRAME then (s', rval) else Waiting(s', idx, n - 1)
  }

  lemma {:induction false} WaitOnce(s: Stack, idx: nat, n: nat)
    requires Valid(s) && idx < EC_MAXBUF
    ensures var (t, r) := Waiting(s, idx, n);
      && (r <= EC_NOFRAME ==> var (t', r') := InFrameOf(t, idx);
            Waiting(s, idx, n + 1) == (t', if r' > EC_NOFRAME then r' else EC_NOFRAME))
      && (r > EC_NOFRAME ==> Waiting(s, idx, n + 1) == (t, r))
      && r >= EC_NOFRAME
    decreases n
  {
    StepsKeepValid(s, idx);
    if n > 0 {
      var (s', rval) := InFrameOf(s, idx);
      if rval <= EC_NOFRAME { WaitOnce(s', idx, n - 1); }
    } else {
      StepsKeepValid(InFrameOf(s, idx).0, idx);
    }
  }

  /** The index was sent, and at most one reply to it is on the wire. */
  ghost predicate Expecting(s: Stack, idx: nat) {
    Valid(s) && idx < EC_MAXBUF && s.stat[idx] == Tx && OneReply(s.wire, idx)
  }

  /** What waiting on stack s should end with: stack t and result r. */
  ghost predicate Sees(s: Stack, idx: nat, t: Stack, r: int)
    requires Valid(s) && Valid(t) && idx < EC_MAXBUF
  {
    var a := Arrival(s.wire, idx);
    && t.txlen == s.txlen
    && if a == |s.wire| then r == EC_NOFRAME && t.wire == []
       else t.wire == s.wire[a + 1..] && r > EC_NOFRAME && Took(t, idx, s.wire[a].value, r)
  }

  /** The slot of idx holds packet p; its work counter was r. */
  ghost predicate Took(t: Stack, idx: nat, p: Packet, r: int)
    requires Valid(t) && idx < EC_MAXBUF
  {
    && t.rxsa[idx] == p.source
    && (FullReply(p.body, t.txlen[idx]) ==> r == WkcOf(p.body) && Holds(t.rxbuf[idx], t.txlen[idx], p.body))
  }

  /** A packet for others, or none, comes first: the wait goes on. */
  lemma OthersFirst(s: Stack, idx: nat, t: Stack, r: int)
    requires Expecting(s, idx) && s.wire != [] && !At(s.wire, 0, idx) && Valid(t)
    ensures var s' := PollSocket(s, idx).0;
      Expecting(s', idx) && Arrival(s'.wire, idx) == Arrival(s.wire, idx) - 1
        && (Sees(s', idx, t, r) ==> Sees(s, idx, t, r))
  {
    PollEffect(s, idx, idx);
    WireWithoutHead(s.wire, idx);
    var a := Arrival(s.wire, idx);
    if a < |s.wire| { assert s.wire[1..][a..] == s.wire[a + 1..]; }
  }

  /** Waiting long enough finds the reply if it is on the wire, and nothing else. */
  lemma {:induction false} WaitFinds(s: Stack, idx: nat, n: nat)
    requires Expecting(s, idx) && n > Arrival(s.wire, idx)
    ensures Sees(s, idx, Waiting(s, idx, n).0, Waiting(s, idx, n).1)
    decreases n
  {
    if s.wire == [] {
      WaitOnEmpty(s, idx, n);
    } else if !At(s.wire, 0, idx) {
      var (t, r) := Waiting(s, idx, n);
      OthersFirst(s, idx, t, r);
      WaitFinds(PollSocket(s, idx).0, idx, n - 1);
      assert PollSocket(s, idx).1 <= EC_NOFRAME by { PollEffect(s, idx, idx); }
    }
  }

  lemma {:induction false} WaitOnEmpty(s: Stack, idx: nat, n: nat)
    requires Valid(s) && idx < EC_MAXBUF && s.wire == [] && s.stat[idx] == Tx
    ensures Waiting(s, idx, n) == (s, EC_NOFRAME)
    decreases n
  {
    if n > 0 { WaitOnEmpty(s, idx, n - 1); }
  }

  lemma WireWithoutHead(wire: seq<Option<Packet>>, idx: nat)
    requires wire != [] && !At(wire, 0, idx) && OneReply(wire, idx)
    ensures Arrival(wire[1..], idx) == Arrival(wire, idx) - 1 && OneReply(wire[1..], idx)
  {
    forall k | Arrival(wire[1..], idx) < k < |wire[1..]|
      ensures !At(wire[1..], k, idx)
    {
      assert !At(wire, k + 1, idx);
    }
  }

  lemma {:induction false} WaitMore(s: Stack, idx: nat, n: nat, m: nat)
    requires Valid(s) && idx < EC_MAXBUF && n <= m && Waiting(s, idx, n).1 > EC_NOFRAME
    ensures Waiting(s, idx, m) == Waiting(s, idx, n)
    decreases m - n
  {
    WaitOnce(s, idx, n);
    if n < m { WaitMore(s, idx, n + 1, m); }
  }

  // ----- the redundant wait

  const RX_PRIM := 0x0101
  const RX_SEC := 0x0404

  /** What the secondary socket yields after the given EtherCAT frame was sent on it. */
  type Medium = seq<byte> -> Arrivals

  ghost predicate ValidMedium(answer: Medium) {
    forall b :: ValidArrivals(answer(b))
  }

  /** Both stacks, the transmit buffer and the work counter after a wait. */
  datatype Outcome = Outcome(prim: Stack, sec: Stack, tx: seq<byte>, wkc: int)

  ghost predicate ValidPair(p: Stack, s: Stack, tx: seq<byte>) {
    Valid(p) && Valid(s) && p.txlen == s.txlen && |tx| == BODYSIZE
  }

  /** The frame received on the secondary port becomes the result. */
  function CopyResult(p: Stack, s: Stack, idx: nat): Stack
    requires Valid(p) && Valid(s) && idx < EC_MAXBUF
  {
    p.(rxbuf := p.rxbuf[idx := Overwrite(p.rxbuf[idx], 0, s.rxbuf[idx][..p.txlen[idx]])])
  }

  lemma {:induction false} WaitingKeepsLengths(s: Stack, idx: nat, n: nat)
    requires Valid(s) && idx < EC_MAXBUF
    ensures Waiting(s, idx, n).0.txlen == s.txlen
    decreases n
  {
    if n > 0 {
      StepsKeepValid(s, idx);
      if InFrameOf(s, idx).1 <= EC_NOFRAME { WaitingKeepsLengths(InFrameOf(s, idx).0, idx, n - 1); }
    }
  }

  /** The second try: the transmit buffer goes out on the secondary port. */
  ghost function Retry(p: Stack, s: Stack, tx: seq<byte>, idx: nat, ticks: nat, answer: Medium, wkc: int): (o: Outcome)
    requires ValidPair(p, s, tx) && idx < EC_MAXBUF && ValidMedium(answer)
    ensures ValidPair(o.prim, o.sec, o.tx)
  {
    var sent := Transmit(s, idx, answer(tx[..p.txlen[idx]]));
    WaitingKeepsLengths(sent, idx, ticks);
    var (s', wkc') := Waiting(sent, idx, ticks);
    if wkc' > EC_NOFRAME then Outcome(CopyResult(p, s', idx), s', tx, wkc') else Outcome(p, s', tx, wkc)
  }

  /** ecx_waitinframe_red; `ticks` and `again` are the numbers of polls before the timers expire. */
  ghost function WaitRed(p: Stack, s: Stack, tx: seq<byte>, redundant: bool, idx: nat, ticks: nat, again: nat,
                         answer: Medium): (o: Outcome)
    requires ValidPair(p, s, tx) && idx < EC_MAXBUF && ValidMedium(answer)
    ensures ValidPair(o.prim, o.sec, o.tx)
  {
    WaitingKeepsLengths(p, idx, ticks);
    var (p', wkc) := Waiting(p, idx, ticks);
    if !redundant then Outcome(p', s, tx, wkc)
    else
      var (s', wkc2) := Waiting(s, idx, ticks);
      var primrx := if wkc > EC_NOFRAME then p'.rxsa[idx] else 0;
      var secrx := if wkc2 > EC_NOFRAME then s'.rxsa[idx] else 0;
      WaitingKeepsLengths(s, idx, ticks);
      if primrx == RX_SEC && secrx == RX_PRIM then Outcome(CopyResult(p', s', idx), s', tx, wkc2)
      else if primrx == 0 && secrx == RX_SEC then Retry(p', s', tx, idx, again, answer, wkc)
      else if primrx == RX_PRIM && secrx == RX_SEC then
        Retry(p', s', Overwrite(tx, 0, p'.rxbuf[idx][..p'.txlen[idx]]), idx, again, answer, wkc)
      else Outcome(p', s', tx, wkc)
  }

  /** One port is waited on until its reply is in, or in vain if there is none; the other is left alone. */
  ghost predicate SeesAlone(p: Stack, s: Stack, idx: nat, ticks: nat, o: Outcome) {
    Expecting(p, idx) && ticks > Arrival(p.wire, idx) ==> Valid(o.prim) && Sees(p, idx, o.prim, o.wkc) && o.sec == s
  }

  /** So it is without redundancy. */
  lemma OnePortWait(p: Stack, s: Stack, tx: seq<byte>, idx: nat, ticks: nat, again: nat, answer: Medium)
    requires ValidPair(p, s, tx) && idx < EC_MAXBUF && ValidMedium(answer)
    ensures SeesAlone(p, s, idx, ticks, WaitRed(p, s, tx, false, idx, ticks, again, answer))
  {
    if Expecting(p, idx) && ticks > Arrival(p.wire, idx) { WaitFinds(p, idx, ticks); }
  }

  /** A work counter, or that there was no frame of the right index. */
  function Clamp(rval: int): int { if rval > EC_NOFRAME then rval else EC_NOFRAME }

  /** One more receive call, unless the frame is in already. */
  method ReadOnce(stack: RxStack, idx: nat, rval0: int, ghost s0: Stack, ghost k: nat) returns (rval: int)
    requires stack.Sound() && idx < EC_MAXBUF && Valid(s0)
    requires Waiting(s0, idx, k) == (stack.Abs(), Clamp(rval0))
    modifies stack, stack.stat, stack.rxbuf, stack.rxsa
    ensures stack.Sound() && Waiting(s0, idx, k + 1) == (stack.Abs(), Clamp(rval))
  {
    WaitOnce(s0, idx, k);
    rval := rval0;
    if rval <= EC_NOFRAME {
      rval := stack.InFrame(idx);
    }
  }

  /** What is sent on both ports, and what then comes in on each. */
  type Network = (seq<byte>, seq<byte>) -> (Arrivals, Arrivals)

  ghost predicate ValidNetwork(net: Network) {
    forall a, b :: ValidArrivals(net(a, b).0) && ValidArrivals(net(a, b).1)
  }

  // ----- the port

  class Port {
    const primary: RxStack
    const secondary: RxStack
    const redundant: bool
    const txbuf: array<seq<byte>>
    var txbuf2: seq<byte>
    var txlen2: nat
    var lastidx: nat

    ghost predicate Separate()
      reads this
    {
      && primary != secondary && primary.txlen == secondary.txlen
      && primary.stat != secondary.stat && primary.rxbuf != secondary.rxbuf && primary.rxsa != secondary.rxsa
      && primary.rxsa != primary.txlen && secondary.rxsa != primary.txlen
      && txbuf != primary.rxbuf && txbuf != secondary.rxbuf
    }

    ghost predicate Ok()
      reads this, primary, primary.stat, primary.rxbuf, primary.rxsa, primary.txlen,
            secondary, secondary.stat, secondary.rxbuf, secondary.rxsa, secondary.txlen, txbuf
    {
      && Separate() && primary.Sound() && secondary.Sound() && lastidx < EC_MAXBUF
      && 4 <= txlen2 <= |txbuf2| && txbuf.Length == EC_MAXBUF
         && forall i :: 0 <= i < EC_MAXBUF ==> |txbuf[i]| == BODYSIZE
    }

    /** ecx_setupnic and ecx_setup_port: `dummy` is the broadcast read sent on the secondary port. */
    constructor (redundant: bool, dummy: seq<byte>)
      requires |dummy| >= 4
      ensures Ok() && this.redundant == redundant && lastidx == 0
    {
      var lengths := new nat[EC_MAXBUF](_ => 0);
      primary := new RxStack(lengths);
      secondary := new RxStack(lengths);
      this.redundant := redundant;
      txbuf := new seq<byte>[EC_MAXBUF](_ => seq(BODYSIZE, _ => 0));
      txbuf2 := dummy;
      txlen2 := |dummy|;
      lastidx := 0;
    }

    /** ecx_getindex. */
    method GetIndex() returns (idx: nat)
      requires Ok()
      modifies this`lastidx, primary.stat, secondary.stat
      ensures idx == FreeFrom(old(primary.stat[..]), Next(old(lastidx)), EC_MAXBUF) && lastidx == idx
      ensures primary.stat[..] == old(primary.stat[..])[idx := Alloc]
      ensures secondary.stat[..] == if redundant then old(secondary.stat[..])[idx := Alloc] else old(secondary.stat[..])
    {
      idx := lastidx + 1;
      if idx >= EC_MAXBUF {
        idx := 0;
      }
      var cnt := 0;
      ghost var stat, start := primary.stat[..], idx;
      while primary.stat[idx] != Empty && cnt < EC_MAXBUF
        invariant idx < EC_MAXBUF && cnt <= EC_MAXBUF
                  && FreeFrom(stat, start, EC_MAXBUF) == FreeFrom(stat, idx, EC_MAXBUF - cnt)
      {
        idx := idx + 1;
        cnt := cnt + 1;
        if idx >= EC_MAXBUF {
          idx := 0;
        }
      }
      assert idx == FreeFrom(stat, start, EC_MAXBUF);
      lastidx := idx;
      SetBufStat(idx, Alloc);
    }

    /** ecx_setbufstat. */
    method SetBufStat(idx: nat, bufstat: BufState)
      requires Ok() && idx < EC_MAXBUF
      modifies primary.stat, secondary.stat
      ensures primary.stat[..] == old(primary.stat[..])[idx := bufstat]
      ensures secondary.stat[..]
              == if redundant then old(secondary.stat[..])[idx := bufstat] else old(secondary.stat[..])
    {
      primary.stat[idx] := bufstat;
      if redundant {
        secondary.stat[idx] := bufstat;
      }
    }

    function Frame(idx: nat): seq<byte>
      requires idx < txbuf.Length && idx < primary.txlen.Length && primary.txlen[idx] <= |txbuf[idx]|
      reads txbuf, primary.txlen
    {
      txbuf[idx][..primary.txlen[idx]]
    }

    /** ecx_outframe_red: the frame on the primary port, the dummy with the same index on the other. */
    method OutFrameRed(idx: nat, net: Network) returns (frame: seq<byte>, dummy: seq<byte>)
      requires Ok() && idx < EC_MAXBUF && ValidNetwork(net)
      modifies this`txbuf2, primary`wire, primary.stat, secondary`wire, secondary.stat
      ensures Ok() && frame == Frame(idx)
      ensures dummy == if redundant then old(txbuf2)[3 := idx][..txlen2] else []
      ensures primary.Abs() == Transmit(old(primary.Abs()), idx, net(frame, dummy).0)
      ensures secondary.Abs() == if redundant then Transmit(old(secondary.Abs()), idx, net(frame, dummy).1)
                                 else old(secondary.Abs())
    {
      frame, dummy := Frame(idx), [];
      if redundant {
        txbuf2 := txbuf2[3 := idx];
        dummy := txbuf2[..txlen2];
      }
      primary.Send(idx, net(frame, dummy).0);
      if redundant {
        secondary.Send(idx, net(frame, dummy).1);
      }
    }

    /** The first loop of ecx_waitinframe_red: until both frames are in or the timer expires. */
    method WaitBoth(idx: nat, ticks: nat) returns (wkc: int, wkc2: int)
      requires Ok() && idx < EC_MAXBUF && ticks >= 1
      modifies primary, primary.stat, primary.rxbuf, primary.rxsa, secondary, secondary.stat, secondary.rxbuf,
        secondary.rxsa
      ensures Ok() && (primary.Abs(), Clamp(wkc)) == Waiting(old(primary.Abs()), idx, ticks)
      ensures redundant ==> (secondary.Abs(), Clamp(wkc2)) == Waiting(old(secondary.Abs()), idx, ticks)
      ensures !redundant ==> secondary.Abs() == old(secondary.Abs())
    {
      wkc, wkc2 := EC_NOFRAME, if redundant then EC_NOFRAME else 0;
      ghost var p0, s0 := primary.Abs(), secondary.Abs();
      var k, more := 0, true;
      while more
        invariant k <= ticks && Ok() && (more ==> k < ticks)
        invariant Waiting(p0, idx, k) == (primary.Abs(), Clamp(wkc))
        invariant if redundant then Waiting(s0, idx, k) == (secondary.Abs(), Clamp(wkc2))
                  else secondary.Abs() == s0 && wkc2 == 0
        invariant !more ==> k == ticks || (wkc > EC_NOFRAME && wkc2 > EC_NOFRAME)
        decreases ticks - k, more
      {
        wkc := ReadOnce(primary, idx, wkc, p0, k);
        if redundant {
          wkc2 := ReadOnce(secondary, idx, wkc2, s0, k);
        }
        k := k + 1;
        more := (wkc <= EC_NOFRAME || wkc2 <= EC_NOFRAME) && k < ticks;
      }
      if k < ticks {
        WaitMore(p0, idx, k, ticks);
        if redundant { WaitMore(s0, idx, k, ticks); }
      }
    }

    method CopyToPrimary(idx: nat)
      requires Ok() && idx < EC_MAXBUF
      modifies primary.rxbuf
      ensures Ok() && primary.Abs() == CopyResult(old(primary.Abs()), secondary.Abs(), idx)
    {
      primary.rxbuf[idx] := Overwrite(primary.rxbuf[idx], 0, secondary.rxbuf[idx][..primary.txlen[idx]]);
    }

    /** The second try: send the transmit buffer on the secondary port and wait there. */
    method Resend(idx: nat, ticks: nat, answer: Medium) returns (wkc2: int)
      requires Ok() && idx < EC_MAXBUF && ticks >= 1 && ValidMedium(answer)
      modifies secondary, secondary.stat, secondary.rxbuf, secondary.rxsa
      ensures Ok()
      ensures (secondary.Abs(), Clamp(wkc2))
              == Waiting(Transmit(old(secondary.Abs()), idx, answer(Frame(idx))), idx, ticks)
    {
      secondary.Send(idx, answer(Frame(idx)));
      ghost var s0 := secondary.Abs();
      wkc2 := EC_NOFRAME;
      var k, more := 0, true;
      while more
        invariant k <= ticks && Ok() && (more ==> k < ticks)
        invariant Waiting(s0, idx, k) == (secondary.Abs(), Clamp(wkc2))
        invariant !more ==> k == ticks || wkc2 > EC_NOFRAME
        decreases ticks - k, more
      {
        wkc2 := ReadOnce(secondary, idx, wkc2, s0, k);
        k := k + 1;
        more := wkc2 <= EC_NOFRAME && k < ticks;
      }
      if k < ticks { WaitMore(s0, idx, k, ticks); }
    }

    /** ecx_waitinframe_red. */
    method WaitInFrameRed(idx: nat, ticks: nat, again: nat, answer: Medium) returns (wkc: int)
      requires Ok() && idx < EC_MAXBUF && ticks >= 1 && again >= 1 && ValidMedium(answer)
      modifies primary, primary.stat, primary.rxbuf, primary.rxsa, secondary, secondary.stat, secondary.rxbuf,
        secondary.rxsa, txbuf
      ensures Ok()
      ensures Outcome(primary.Abs(), secondary.Abs(), txbuf[idx], Clamp(wkc))
              == WaitRed(old(primary.Abs()), old(secondary.Abs()), old(txbuf[idx]), redundant, idx, ticks, again,
                         answer)
      ensures forall i :: 0 <= i < EC_MAXBUF && i != idx ==> txbuf[i] == old(txbuf[i])
      ensures !redundant ==> SeesAlone(old(primary.Abs()), old(secondary.Abs()), idx, ticks,
                                       Outcome(primary.Abs(), secondary.Abs(), txbuf[idx], Clamp(wkc)))
    {
      if !redundant { OnePortWait(primary.Abs(), secondary.Abs(), txbuf[idx], idx, ticks, again, answer); }
      var wkc2;
      wkc, wkc2 := WaitBoth(idx, ticks);
      if redundant {
        var primrx := if wkc > EC_NOFRAME then primary.rxsa[idx] else 0;
        var secrx := if wkc2 > EC_NOFRAME then secondary.rxsa[idx] else 0;
        if primrx == RX_SEC && secrx == RX_PRIM {
          CopyToPrimary(idx);
          wkc := wkc2;
        }
        if (primrx == 0 && secrx == RX_SEC) || (primrx == RX_PRIM && secrx == RX_SEC) {
          if primrx == RX_PRIM && secrx == RX_SEC {
            txbuf[idx] := Overwrite(txbuf[idx], 0, primary.rxbuf[idx][..primary.txlen[idx]]);
          }
          wkc2 := Resend(idx, again, answer);
          if wkc2 > EC_NOFRAME {
            CopyToPrimary(idx);
            wkc := wkc2;
          }
        }
      }
    }
  }
}
