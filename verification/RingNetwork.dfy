/** A ring of slaves as a network, and the master that sends a frame into it and waits. */
module RingNetwork {
  import opened Basics
  import opened Bytes
  import opened Transport
  import opened Interleaving
  import opened Redundancy
  import opened Ring

  /** One EtherCAT packet comes in; a body that is no frame is not sent at all. */
  function Comes(source: nat, body: seq<byte>): (a: Arrivals)
    ensures ValidArrivals(a)
  {
    if 4 <= |body| <= BODYSIZE then Some([Some(Packet(source, ETH_P_ECAT, body))]) else None
  }

  /** What comes in on the primary port after a frame went out on it and the dummy on the other. */
  function PrimaryIn(slaves: seq<Slave>, cut: Break, frame: seq<byte>, dummy: seq<byte>): (a: Arrivals)
    requires IsBreak(cut, |slaves|)
    ensures ValidArrivals(a)
  {
    match cut
    case Intact => Comes(RX_SEC, dummy)
    case PrimaryCable => Some([])
    case SecondaryCable => Comes(RX_PRIM, Through(slaves, frame))
    case Broken(k, _) => Comes(RX_PRIM, Through(slaves[..k], frame))
  }

  /** And on the secondary port. */
  function SecondaryIn(slaves: seq<Slave>, cut: Break, frame: seq<byte>, dummy: seq<byte>): (a: Arrivals)
    requires IsBreak(cut, |slaves|)
    ensures ValidArrivals(a)
  {
    match cut
    case Intact => Comes(RX_PRIM, Through(slaves, frame))
    case PrimaryCable => Comes(RX_SEC, Through(slaves, dummy))
    case SecondaryCable => Some([])
    case Broken(_, m) => Comes(RX_SEC, Through(slaves[m..], dummy))
  }

  /** What comes in on the secondary port after a frame went out on it. */
  function Returns(slaves: seq<Slave>, cut: Break, b: seq<byte>): (a: Arrivals)
    requires IsBreak(cut, |slaves|)
    ensures ValidArrivals(a)
  {
    match cut
    case PrimaryCable => Comes(RX_PRIM, Through(slaves, b))
    case Broken(_, m) => Comes(RX_PRIM, Through(slaves[m..], b))
    case _ => Some([])
  }

  function Cables(slaves: seq<Slave>, cut: Break): Network
    requires IsBreak(cut, |slaves|)
  {
    (frame: seq<byte>, dummy: seq<byte>) => (PrimaryIn(slaves, cut, frame, dummy),
                                             SecondaryIn(slaves, cut, frame, dummy))
  }

  function SecondaryCables(slaves: seq<Slave>, cut: Break): Medium
    requires IsBreak(cut, |slaves|)
  {
    (b: seq<byte>) => Returns(slaves, cut, b)
  }

  /** Behind silence comes one packet to idx. */
  lemma OneComes(before: seq<Option<Packet>>, idx: nat, source: nat, body: seq<byte>)
    requires Silent(before, idx) && 4 <= |body| <= BODYSIZE && body[3] == idx
    ensures Comes(source, body).Some? && YieldsFrame(before + Comes(source, body).value, idx, source, body)
  {
    var y := Comes(source, body).value;
    assert At(y, 0, idx) && Arrival(y, idx) == 0;
    YieldsBehind(before, y, idx, source, body);
  }

  /** The packet that comes in is the frame after it passed some of the slaves. */
  lemma PassedComes(before: seq<Option<Packet>>, slaves: seq<Slave>, idx: nat, source: nat, b: seq<byte>, a: Arrivals)
    requires Silent(before, idx) && AllPass(slaves) && 4 <= |b| <= BODYSIZE && b[3] == idx
    requires a == Comes(source, Through(slaves, b))
    ensures a.Some? && |a.value| == 1 && YieldsFrame(before + a.value, idx, source, Through(slaves, b))
  {
    ThroughKeepsHeader(slaves, b);
    OneComes(before, idx, source, Through(slaves, b));
  }

  lemma OneReturns(a: Arrivals, slaves: seq<Slave>, idx: nat, b: seq<byte>, again: int)
    requires AllPass(slaves) && 4 <= |b| <= BODYSIZE && b[3] == idx && again > 1
             && a == Comes(RX_PRIM, Through(slaves, b))
    ensures a.Some? && |a.value| < again && YieldsFrame(a.value, idx, RX_PRIM, Through(slaves, b))
  {
    PassedComes([], slaves, idx, RX_PRIM, b, a);
    assert [] + a.value == a.value;
  }

  /** A frame of n bytes sent on the secondary port comes back at once. */
  lemma ReturnsAtOnce(slaves: seq<Slave>, cut: Break, rest: seq<Slave>, idx: nat, n: nat, again: int)
    requires IsBreak(cut, |slaves|) && AllPass(rest) && n <= BODYSIZE && again > 1
    requires (cut == PrimaryCable && rest == slaves) || (cut.Broken? && rest == slaves[cut.m..])
    ensures ComesBack(SecondaryCables(slaves, cut), idx, n, rest, again)
  {
    var answer := SecondaryCables(slaves, cut);
    forall b: seq<byte> | |b| == n && n >= 4 && b[3] == idx
      ensures answer(b).Some? && |answer(b).value| < again
              && YieldsFrame(answer(b).value, idx, RX_PRIM, Through(rest, b))
    {
      OneReturns(answer(b), rest, idx, b, again);
    }
  }

  /** These cables deliver, behind whatever else is on the wires. */
  lemma CablesDeliver(slaves: seq<Slave>, cut: Break, frame: seq<byte>, dummy: seq<byte>, idx: nat,
                      wp: seq<Option<Packet>>, ws: seq<Option<Packet>>, x: Arrivals, y: Arrivals, again: nat)
    requires IsBreak(cut, |slaves|) && AllPass(slaves) && Silent(wp, idx) && Silent(ws, idx) && again > |ws| + 2
    requires 4 <= |frame| <= BODYSIZE && frame[3] == idx && 4 <= |dummy| <= BODYSIZE && dummy[3] == idx
    requires x == PrimaryIn(slaves, cut, frame, dummy) && y == SecondaryIn(slaves, cut, frame, dummy)
    ensures x.Some? && y.Some? && |x.value| <= 1 && |y.value| <= 1
    ensures Delivers(slaves, cut, frame, idx, wp + x.value, ws + y.value, SecondaryCables(slaves, cut), again)
  {
    match cut
    case Intact =>
      OneComes(wp, idx, RX_SEC, dummy);
      PassedComes(ws, slaves, idx, RX_PRIM, frame, y);
    case PrimaryCable =>
      assert wp + [] == wp;
      PassedComes(ws, slaves, idx, RX_SEC, dummy, y);
      ReturnsAtOnce(slaves, cut, slaves, idx, |frame|, again - |ws + y.value|);
    case SecondaryCable =>
      PassedComes(wp, slaves, idx, RX_PRIM, frame, x);
      assert ws + [] == ws;
    case Broken(k, m) =>
      PassedComes(wp, slaves[..k], idx, RX_PRIM, frame, x);
      PassedComes(ws, slaves[m..], idx, RX_SEC, dummy, y);
      ReturnsAtOnce(slaves, cut, slaves[m..], idx, |frame|, again - |ws + y.value|);
  }

  /** Nothing for idx is under way to a port. */
  ghost predicate Quiet(s: Stack, idx: nat, ticks: nat) { Silent(s.wire, idx) && ticks > |s.wire| + 1 }

  ghost predicate GoodFrame(p: Stack, tx: seq<byte>, idx: nat, frame: seq<byte>) {
    Valid(p) && idx < EC_MAXBUF && |tx| == BODYSIZE && frame == tx[..p.txlen[idx]] && FullReply(frame, |frame|)
      && frame[3] == idx
  }

  /** Sending and waiting, as a statement on the stacks. */
  lemma RoundResult(slaves: seq<Slave>, cut: Break, p: Stack, s: Stack, tx: seq<byte>, idx: nat, frame: seq<byte>,
                    dummy: seq<byte>, ticks: nat, again: nat, x: Arrivals, y: Arrivals)
    requires IsBreak(cut, |slaves|) && SinglePlace(cut) && AllPass(slaves)
    requires ValidPair(p, s, tx) && GoodFrame(p, tx, idx, frame)
    requires Quiet(p, idx, ticks) && Quiet(s, idx, ticks) && again > |s.wire| + 2
    requires 4 <= |dummy| <= BODYSIZE && dummy[3] == idx
    requires x == PrimaryIn(slaves, cut, frame, dummy) && y == SecondaryIn(slaves, cut, frame, dummy)
    ensures ValidMedium(SecondaryCables(slaves, cut))
    ensures Result(WaitRed(Transmit(p, idx, x), Transmit(s, idx, y), tx, true, idx, ticks, again,
                           SecondaryCables(slaves, cut)),
                   idx, Through(slaves, frame))
  {
    CablesDeliver(slaves, cut, frame, dummy, idx, p.wire, s.wire, x, y, again);
    SingleBreakTransparent(slaves, cut, Transmit(p, idx, x), Transmit(s, idx, y), tx, idx, frame, ticks, again,
                           SecondaryCables(slaves, cut));
  }

  /** The same on one port, with all slaves on its cable. */
  lemma LineResult(slaves: seq<Slave>, p: Stack, s: Stack, tx: seq<byte>, idx: nat, frame: seq<byte>, ticks: nat,
                   again: nat, x: Arrivals, answer: Medium)
    requires AllPass(slaves) && ValidPair(p, s, tx) && GoodFrame(p, tx, idx, frame) && Quiet(p, idx, ticks)
    requires x == Comes(RX_PRIM, Through(slaves, frame)) && ValidMedium(answer)
    ensures var o := WaitRed(Transmit(p, idx, x), s, tx, false, idx, ticks, again, answer);
      Result(o, idx, Through(slaves, frame)) && o.sec == s
  {
    PassedComes(p.wire, slaves, idx, RX_PRIM, frame, x);
    ThroughIsReply(slaves, frame);
    PortYields(Transmit(p, idx, x), idx, ticks, RX_PRIM);
  }

  /** The slaves hang on the port as told: without redundancy they are a line, and no second cable leads back. */
  predicate Wiring(redundant: bool, slaves: seq<Slave>, cut: Break) {
    IsBreak(cut, |slaves|) && SinglePlace(cut) && (redundant || cut == SecondaryCable)
  }

  /** One round as a statement on the stacks, with redundancy or without. */
  lemma EitherResult(redundant: bool, slaves: seq<Slave>, cut: Break, p: Stack, s: Stack, tx: seq<byte>, idx: nat,
                     frame: seq<byte>, dummy: seq<byte>, ticks: nat, again: nat, x: Arrivals, y: Arrivals, s': Stack)
    requires Wiring(redundant, slaves, cut) && AllPass(slaves)
    requires ValidPair(p, s, tx) && GoodFrame(p, tx, idx, frame) && Quiet(p, idx, ticks)
    requires redundant ==> Quiet(s, idx, ticks) && again > |s.wire| + 2 && 4 <= |dummy| <= BODYSIZE && dummy[3] == idx
    requires x == PrimaryIn(slaves, cut, frame, dummy) && y == SecondaryIn(slaves, cut, frame, dummy)
    requires s' == if redundant then Transmit(s, idx, y) else s
    ensures ValidMedium(SecondaryCables(slaves, cut))
    ensures Result(WaitRed(Transmit(p, idx, x), s', tx, redundant, idx, ticks, again, SecondaryCables(slaves, cut)),
                   idx,
                   Through(slaves, frame))
  {
    if redundant {
      RoundResult(slaves, cut, p, s, tx, idx, frame, dummy, ticks, again, x, y);
    } else {
      LineResult(slaves, p, s, tx, idx, frame, ticks, again, x, SecondaryCables(slaves, cut));
    }
  }

  /** The port holds a frame for idx; nothing for idx is under way, and the timers leave time for more polls
      than there are packets on the wires. */
  ghost predicate Ready(port: Port, idx: nat, ticks: nat, again: nat)
    reads port, port.primary, port.primary.stat, port.primary.rxbuf, port.primary.rxsa, port.primary.txlen,
          port.secondary, port.secondary.stat, port.secondary.rxbuf, port.secondary.rxsa, port.secondary.txlen,
            port.txbuf
  {
    && port.Ok() && idx < EC_MAXBUF && port.txlen2 <= BODYSIZE && again >= 1
    && GoodFrame(port.primary.Abs(), port.txbuf[idx], idx, port.Frame(idx)) && Quiet(port.primary.Abs(), idx, ticks)
    && (port.redundant ==> Quiet(port.secondary.Abs(), idx, ticks) && again > |port.secondary.wire| + 2)
  }

  /** The rx buffer holds the frame after all slaves, and this is its work counter. */
  ghost predicate Arrived(port: Port, idx: nat, wkc: int, frame: seq<byte>)
    reads port, port.primary, port.primary.rxbuf
  {
    idx < port.primary.rxbuf.Length && wkc == WkcOf(frame) && Holds(port.primary.rxbuf[idx], |frame|, frame)
  }

  /** ecx_outframe_red into the cables. */
  method SendInto(port: Port, idx: nat, slaves: seq<Slave>, cut: Break) returns (frame: seq<byte>, dummy: seq<byte>)
    requires port.Ok() && idx < EC_MAXBUF && IsBreak(cut, |slaves|)
    modifies port`txbuf2, port.primary`wire, port.primary.stat, port.secondary`wire, port.secondary.stat
    ensures port.Ok() && frame == old(port.Frame(idx))
    ensures port.redundant ==> |dummy| == port.txlen2 && dummy[3] == idx
    ensures port.primary.Abs() == Transmit(old(port.primary.Abs()), idx, PrimaryIn(slaves, cut, frame, dummy))
    ensures port.secondary.Abs()
            == if port.redundant then Transmit(old(port.secondary.Abs()), idx, SecondaryIn(slaves, cut, frame, dummy))
               else old(port.secondary.Abs())
  {
    var net := Cables(slaves, cut);
    frame, dummy := port.OutFrameRed(idx, net);
    assert net(frame, dummy) == (PrimaryIn(slaves, cut, frame, dummy), SecondaryIn(slaves, cut, frame, dummy));
  }

  /** One round of ecx_srconfirm. */
  method SendAndWait(port: Port, idx: nat, slaves: seq<Slave>, cut: Break, ticks: nat, again: nat) returns (wkc: int)
    requires Ready(port, idx, ticks, again) && AllPass(slaves) && Wiring(port.redundant, slaves, cut)
    modifies port, port.primary, port.primary.stat, port.primary.rxbuf, port.primary.rxsa,
             port.secondary, port.secondary.stat, port.secondary.rxbuf, port.secondary.rxsa, port.txbuf
    ensures port.Ok() && wkc > EC_NOFRAME && Arrived(port, idx, wkc, Through(slaves, old(port.Frame(idx))))
  {
    ghost var p, s, tx := port.primary.Abs(), port.secondary.Abs(), port.txbuf[idx];
    var frame, dummy := SendInto(port, idx, slaves, cut);
    EitherResult(port.redundant, slaves, cut, p, s, tx, idx, frame, dummy, ticks, again,
                 PrimaryIn(slaves, cut, frame, dummy), SecondaryIn(slaves, cut, frame, dummy), port.secondary.Abs());
    wkc := port.WaitInFrameRed(idx, ticks, again, SecondaryCables(slaves, cut));
  }

  /** ecx_srconfirm over a ring with at most one break, or over a line of slaves on one port: every frame is
      confirmed in the first round, with work counter and contents of all slaves passed once in order. */
  method SrConfirm(port: Port, idx: nat, slaves: seq<Slave>, cut: Break, ticks: nat, again: nat, rounds: nat)
    returns (wkc: int)
    requires Ready(port, idx, ticks, again) && AllPass(slaves) && Wiring(port.redundant, slaves, cut)
    modifies port, port.primary, port.primary.stat, port.primary.rxbuf, port.primary.rxsa,
             port.secondary, port.secondary.stat, port.secondary.rxbuf, port.secondary.rxsa, port.txbuf
    ensures port.Ok() && wkc > EC_NOFRAME && Arrived(port, idx, wkc, Through(slaves, old(port.Frame(idx))))
  {
    wkc := EC_NOFRAME;
    var round, more := 0, true;
    ghost var frame := port.Frame(idx);
    while more
      invariant if more then Ready(port, idx, ticks, again) && port.Frame(idx) == frame && round == 0
                else port.Ok() && wkc > EC_NOFRAME && Arrived(port, idx, wkc, Through(slaves, frame))
      decreases more
    {
      wkc := SendAndWait(port, idx, slaves, cut, ticks, again);
      round := round + 1;
      more := wkc <= EC_NOFRAME && round < rounds;
    }
  }
}
