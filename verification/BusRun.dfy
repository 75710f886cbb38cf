/** From the slave list to the first cycle: a group is mapped, process data are sent and received, and the
    bus layer judges the work counter. */
module BusRun {
  import opened Basics
  import opened FmmuMapping
  import opened Segments
  import opened IoMap
  import opened ProcessData
  import opened CycleProofs
  import opened CycleImages
  import opened Pipeline
  import opened Pointers
  import opened BusLayer

  /** What sending reads of a group. */
  function ViewOf(g: Group, hasdc: bool): View
    requires g.Valid() && g.nsegments <= g.iosegment.Length
    reads g, g.iosegment
  {
    View(g.logstartaddr, g.obytes, g.ibytes, g.inputs, g.iosegment[..g.nsegments], g.isegment, g.ioffset, g.blockLRW,
         hasdc)
  }

  /** The slaves on the wire of a mapped group. */
  function SlavesOf(was: seq<SlaveMap>, group: nat, p: Plan, level: int -> bool, clockHits: nat, clock: int): Slaves
    requires 1 <= |was| <= |p.mid| && |was| <= |p.lo.pts| && |was| <= |p.li.pts|
  {
    Slaves(Spans(was, group, Output, p.lo, |was| - 1), Spans(p.mid, group, Input, p.li, |was| - 1), level, clockHits,
           clock)
  }

  /** Map a group, and set up its exchange and its bus layer. */
  method Configure(group: Group, hasdc: bool, ghost level: int -> bool, ghost clockHits: nat, ghost clock: int)
    returns (bus: Bus, g: View, ghost p: Plan, ghost b: Slaves)
    requires group.Valid() && group.slaves.Length > 1
             && forall k :: 1 <= k < group.slaves.Length ==> WellFormed(group.slaves[k])
    modifies group, group.iosegment, group.slaves
    ensures IsView(old(group.slaves[..]), group.slaves[..], group.number, group.Base(), p, g, b)
    ensures b.level == level && b.clockHits == clockHits && b.clock == clock && g.logstart == group.logstartaddr
    ensures fresh(bus) && fresh(bus.exchange) && bus.exchange.stack == [] && bus.exchange.pulled == 0
            && !bus.sentProcessData
    ensures bus.workingCounterTooLowCounter == 0 && |bus.exchange.image| == 8 * (g.obytes + g.ibytes)
    ensures 2 * bus.outputsWKC + bus.inputsWKC == ExpectedCount(p, group.slaves.Length - 1)
  {
    ghost var was := group.slaves[..];
    var mapped;
    mapped, p := group.MapGroup();
    g := ViewOf(group, hasdc);
    b := SlavesOf(was, group.number, p, level, clockHits, clock);
    var exchange := new Exchange(mapped);
    bus := new Bus(exchange, group.outputsWKC, group.inputsWKC);
  }

  /** What the replies `rx` to a cycle come to: the slaves may read exactly if something came back and no
      frame that counts is missing, when no datagram boundary splits a slave, as for slaves of whole bytes; and
      if nothing is missing they may read unless nothing was sent, and their inputs are in the image. */
  ghost predicate Outcome(was: seq<SlaveMap>, group: nat, p: Plan, g: View, b: Slaves, first: nat, image: seq<bool>,
                          rx: map<nat, Reply>, slavesRead: bool, image': seq<bool>)
    requires |p.mid| == |was| && InTable(g, false) && 8 * (g.obytes + g.ibytes) <= |image|
  {
    && (SplitsNone(g, b) || (ByteOriented(was, group, Output) && ByteOriented(p.mid, group, Input)) ==>
          (slavesRead <==> Arrived(Cycle(g, false), first, rx) && !Lost(b, Cycle(g, false), first, rx)))
    && (CycleAnswered(g, false, b, first, image, rx, true) ==>
          (slavesRead <==> Cycle(g, false) != []) && IsAfterCycle(g, b, image, image'))
  }

  lemma OutcomeOf(was: seq<SlaveMap>, now: seq<SlaveMap>, group: nat, base: nat, p: Plan, g: View, b: Slaves,
                  first: nat, image: seq<bool>, clock: int, rx: map<nat, Reply>)
    requires Ready(was, now, group, base, p, g, b, image) && CycleAnswered(g, false, b, first, image, rx, false)
    ensures |p.mid| == |was|
    ensures Outcome(was, group, p, g, b, first, image, rx,
                    Total(Cycle(g, false), first, image, clock, rx) >= ExpectedCount(p, |was| - 1),
                    ReceiveAll(State(image, clock, 0, false), PushAll([], Cycle(g, false), first), rx).image)
  {
    TooLowIffLost(was, now, group, base, p, g, b, first, image, clock, rx);
    if ByteOriented(was, group, Output) && ByteOriented(p.mid, group, Input) {
      BytesSplitNone(was, now, group, base, p, g, b);
    }
    if CycleAnswered(g, false, b, first, image, rx, true) {
      WorkCounterAccounting(was, now, group, base, p, g, b, first, image, clock, rx);
      AllInputsThere(was, now, group, base, p, g, b, first, image, clock, rx);
    }
  }

  lemma AllInputsThere(was: seq<SlaveMap>, now: seq<SlaveMap>, group: nat, base: nat, p: Plan, g: View, b: Slaves,
                       first: nat, image: seq<bool>, clock: int, rx: map<nat, Reply>)
    requires Ready(was, now, group, base, p, g, b, image) && CycleAnswered(g, false, b, first, image, rx, true)
    ensures IsAfterCycle(g, b, image,
                         ReceiveAll(State(image, clock, 0, false), PushAll([], Cycle(g, false), first), rx).image)
  {
    MappedWorth(was, now, group, base, p, g, b);
    AllPushed([], Cycle(g, false), first);
    assert [] + Entries(Cycle(g, false), first) == Entries(Cycle(g, false), first);
    CycleImage(g, b, first, image, rx, State(image, clock, 0, false));
  }

  /** If all frames came back, every slave of the group finds its inputs behind its pointer, and gets the outputs
      behind the other. `base` is the start of the group, unless it is group 0, which does not subtract it. */
  ghost predicate ServedIfComplete(was: seq<SlaveMap>, now: seq<SlaveMap>, group: nat, base: nat, p: Plan, g: View,
                                   b: Slaves, first: nat, image: seq<bool>, rx: map<nat, Reply>, image': seq<bool>)
    requires InTable(g, false) && 8 * (g.obytes + g.ibytes) <= |image|
  {
    && |p.mid| == |was| == |now| == |p.lo.pts| == |p.li.pts|
    && (base == g.logstart && CycleAnswered(g, false, b, first, image, rx, true) ==>
          AllServed(was, now, group, p, g, b, image, image'))
  }

  lemma ServedByCycle(was: seq<SlaveMap>, now: seq<SlaveMap>, group: nat, base: nat, p: Plan, g: View, b: Slaves,
                      first: nat, image: seq<bool>, clock: int, rx: map<nat, Reply>)
    requires Ready(was, now, group, base, p, g, b, image)
    ensures ServedIfComplete(was, now, group, base, p, g, b, first, image, rx,
                             ReceiveAll(State(image, clock, 0, false), PushAll([], Cycle(g, false), first), rx).image)
  {
    ViewOnWire(was, now, group, base, p, g, b);
    if base == g.logstart && CycleAnswered(g, false, b, first, image, rx, true) {
      MappedWorth(was, now, group, base, p, g, b);
      AllInputsThere(was, now, group, base, p, g, b, first, image, clock, rx);
      CycleServes(was, now, group, base, p, g, b, image,
                  ReceiveAll(State(image, clock, 0, false), PushAll([], Cycle(g, false), first), rx).image);
    }
  }

  /** One cycle of the bus: write, then read whatever came back. */
  method RunCycle(bus: Bus, g: View, rx: map<nat, Reply>, ghost was: seq<SlaveMap>, ghost now: seq<SlaveMap>,
                  ghost group: nat, ghost base: nat, ghost p: Plan, ghost b: Slaves)
    returns (slavesRead: bool)
    requires Ready(was, now, group, base, p, g, b, bus.exchange.image)
    requires bus.exchange.stack == [] && bus.exchange.pulled == 0
    requires 2 * bus.outputsWKC + bus.inputsWKC == ExpectedCount(p, |was| - 1)
    requires CycleAnswered(g, false, b, bus.exchange.nextIndex, bus.exchange.image, rx, false)
    modifies bus, bus.exchange
    ensures bus.exchange.stack == [] && bus.exchange.pulled == 0 && !bus.sentProcessData && |p.mid| == |was|
    ensures Outcome(was, group, p, g, b, old(bus.exchange.nextIndex), old(bus.exchange.image), rx, slavesRead,
                    bus.exchange.image)
    ensures bus.workingCounterTooLowCounter == if slavesRead then 0 else old(bus.workingCounterTooLowCounter) + 1
    ensures ServedIfComplete(was, now, group, base, p, g, b, old(bus.exchange.nextIndex), old(bus.exchange.image), rx,
                             bus.exchange.image)
  {
    ghost var ds, first, image, clock :=
        Cycle(g, false), bus.exchange.nextIndex, bus.exchange.image, bus.exchange.clock;
    OutcomeOf(was, now, group, base, p, g, b, first, image, clock, rx);
    ServedByCycle(was, now, group, base, p, g, b, first, image, clock, rx);
    var frames := bus.UpdateWrite(g);
    slavesRead := bus.UpdateRead(rx);
    assert bus.wkc == Total(ds, first, image, clock, rx);
  }

  /** Map a group and run its first cycle, whose replies are `rx`. */
  method MapAndRun(group: Group, hasdc: bool, rx: map<nat, Reply>, ghost level: int -> bool, ghost clockHits: nat,
                   ghost clock: int)
    returns (slavesRead: bool, bus: Bus, ghost g: View, ghost p: Plan, ghost b: Slaves, ghost first: nat,
             ghost sent: seq<bool>)
    requires group.Valid() && group.slaves.Length > 1
             && forall k :: 1 <= k < group.slaves.Length ==> WellFormed(group.slaves[k])
    modifies group, group.iosegment, group.slaves
    ensures IsView(old(group.slaves[..]), group.slaves[..], group.number, group.Base(), p, g, b)
    ensures b.level == level && b.clockHits == clockHits && b.clock == clock
    ensures InTable(g, false) && |sent| == 8 * (g.obytes + g.ibytes) && |p.mid| == |old(group.slaves[..])|
    ensures Fits(p.outDiffs + p.inDiffs) && |Cycle(g, false)| <= EC_MAXBUF
            && CycleAnswered(g, false, b, first, sent, rx, false) ==>
              Outcome(old(group.slaves[..]), group.number, p, g, b, first, sent, rx, slavesRead, bus.exchange.image)
    ensures Fits(p.outDiffs + p.inDiffs) && |Cycle(g, false)| <= EC_MAXBUF ==>
              ServedIfComplete(old(group.slaves[..]), group.slaves[..], group.number, group.Base(), p, g, b, first,
                               sent,
                               rx, bus.exchange.image)
    ensures bus.workingCounterTooLowCounter == if slavesRead then 0 else 1
  {
    ghost var was := group.slaves[..];
    var view;
    bus, view, p, b := Configure(group, hasdc, level, clockHits, clock);
    g, first, sent := view, bus.exchange.nextIndex, bus.exchange.image;
    TableAddsUpIff(was, group.slaves[..], group.number, group.Base(), p, g, b);
    if Fits(p.outDiffs + p.inDiffs) && |Cycle(g, false)| <= EC_MAXBUF
       && CycleAnswered(g, false, b, first, sent, rx, false) {
      OutcomeOf(was, group.slaves[..], group.number, group.Base(), p, g, b, first, sent, bus.exchange.clock, rx);
    }
    if Fits(p.outDiffs + p.inDiffs) && |Cycle(g, false)| <= EC_MAXBUF {
      ServedByCycle(was, group.slaves[..], group.number, group.Base(), p, g, b, first, sent, bus.exchange.clock, rx);
    }
    ghost var ds, before := Cycle(g, false), bus.exchange.clock;
    var frames := bus.UpdateWrite(view);
    slavesRead := bus.UpdateRead(rx);
    assert bus.wkc == Total(ds, first, sent, before, rx);
  }
}
