/** What one cycle of process data counts: the datagrams tile the mapped range, the slaves answer, the
    received work counters add up. */
module CycleProofs {
  import opened Basics
  import opened Segments
  import opened WorkCounter
  import opened ProcessData

  // ----- the lengths tile

  /** Unclipped lengths use up the segments when these add up to what is left to send. */
  lemma {:induction false} LensTile(segs: seq<nat>, skip: nat, length: int)
    requires segs != [] && skip <= segs[0] && Sum(segs) - skip == length
    ensures Sum(Lens(segs, skip, false, length)) == length
    decreases segs
  {
    var sub := segs[0] - skip;
    var lens := Lens(segs, skip, false, length);
    assert lens[0] == sub;
    if length - sub != 0 && |segs| > 1 {
      LensTile(segs[1..], 0, length - sub);
      assert lens[1..] == Lens(segs[1..], 0, false, length - sub);
    } else {
      assert lens[1..] == [];
    }
  }

  /** Clipped lengths add up to exactly the wanted length. */
  lemma {:induction false} ClippedTile(segs: seq<nat>, length: nat)
    requires segs != [] && Sum(segs) >= length
    ensures Sum(Lens(segs, 0, true, length)) == length
    decreases segs
  {
    var sub := Sublength(segs[0], true, length);
    var lens := Lens(segs, 0, true, length);
    assert lens[0] == sub;
    if length - sub != 0 && |segs| > 1 {
      ClippedTile(segs[1..], length - sub);
      assert lens[1..] == Lens(segs[1..], 0, true, length - sub);
    } else {
      assert lens[1..] == [];
    }
  }

  // ----- the slaves' side

  predicate Maps(spans: seq<Span>, bit: int) {
    exists k :: 0 <= k < |spans| && spans[k].a <= bit < spans[k].b
  }

  /** The slaves on the wire: the bits each maps as outputs and as inputs, the value of every input
      bit, what the clock datagram counts and returns. */
  datatype Slaves = Slaves(outs: seq<Span>, ins: seq<Span>, level: int -> bool, clockHits: nat, clock: int)

  /** Work counter of a logical datagram: reading adds 1, writing adds 1, and in LRW writing adds 2
      (ETG.1000.4, section 5.4.1). */
  function Answer(b: Slaves, d: Logical): nat {
    var lo, hi := 8 * d.addr, 8 * (d.addr + d.len);
    match d.cmd
    case LRD => Hits(b.ins, lo, hi)
    case LWR => Hits(b.outs, lo, hi)
    case LRW => 2 * Hits(b.outs, lo, hi) + Hits(b.ins, lo, hi)
  }

  /** What the master counts for it. */
  function Worth(b: Slaves, d: Logical): nat {
    if d.cmd == LWR then 2 * Answer(b, d) else Answer(b, d)
  }

  ghost function ReplyBit(b: Slaves, cmd: Command, bit: int, sent: bool): bool {
    if cmd != LWR && Maps(b.ins, bit) then b.level(bit) else sent
  }

  ghost function ReplyTo(b: Slaves, d: Logical, image: seq<bool>): (r: Reply)
    requires InImage(d, |image|)
    ensures |r.data| == 8 * d.len
  {
    var data := Payload(d, image);
    Reply(d.cmd, seq(|data|, i requires 0 <= i < |data| => ReplyBit(b, d.cmd, 8 * d.addr + i, data[i])), Answer(b, d),
          b.clock, if d.dc then b.clockHits else Answer(b, d))
  }

  /** The replies in `rx` are the slaves' answers to the datagrams; `all` says that none is missing. */
  ghost predicate Answered(b: Slaves, ds: seq<Logical>, first: nat, image: seq<bool>, rx: map<nat, Reply>, all: bool)
    requires AllInImage(ds, |image|)
    decreases ds
  {
    ds == [] ||
    (&& (first % EC_MAXBUF in rx ==> rx[first % EC_MAXBUF] == ReplyTo(b, ds[0], image))
     && (all ==> first % EC_MAXBUF in rx)
     && Answered(b, ds[1..], first + 1, image, rx, all))
  }

  /** Counts of the datagrams whose frame came back. */
  ghost function Returned(b: Slaves, ds: seq<Logical>, first: nat, rx: map<nat, Reply>): nat
    decreases ds
  {
    if ds == [] then 0
    else (if first % EC_MAXBUF in rx then Worth(b, ds[0]) else 0) + Returned(b, ds[1..], first + 1, rx)
  }

  function TotalWorth(b: Slaves, ds: seq<Logical>): nat {
    if ds == [] then 0 else Worth(b, ds[0]) + TotalWorth(b, ds[1..])
  }

  /** A frame that counts is missing. */
  ghost predicate Lost(b: Slaves, ds: seq<Logical>, first: nat, rx: map<nat, Reply>)
    decreases ds
  {
    ds != [] && ((first % EC_MAXBUF !in rx && Worth(b, ds[0]) > 0) || Lost(b, ds[1..], first + 1, rx))
  }

  lemma {:induction false} LossLowersTotal(b: Slaves, ds: seq<Logical>, first: nat, rx: map<nat, Reply>)
    ensures Returned(b, ds, first, rx) <= TotalWorth(b, ds)
    ensures Returned(b, ds, first, rx) < TotalWorth(b, ds) <==> Lost(b, ds, first, rx)
    decreases ds
  {
    if ds != [] { LossLowersTotal(b, ds[1..], first + 1, rx); }
  }

  function Entries(ds: seq<Logical>, first: nat): seq<Entry>
    decreases ds
  {
    if ds == [] then []
    else [Entry(first % EC_MAXBUF, ds[0].store, ds[0].len, DcOffset(ds[0]))] + Entries(ds[1..], first + 1)
  }

  /** Up to 16 frames all get on the stack. */
  lemma {:induction false} AllPushed(stack: seq<Entry>, ds: seq<Logical>, first: nat)
    requires |stack| + |ds| <= EC_MAXBUF
    ensures PushAll(stack, ds, first) == stack + Entries(ds, first)
    decreases ds
  {
    if ds != [] {
      AllPushed(Push(stack, first % EC_MAXBUF, ds[0]), ds[1..], first + 1);
    }
  }

  /** Only the first datagram of a cycle has the clock behind it. */
  predicate ClockFirst(ds: seq<Logical>) {
    forall k :: 1 <= k < |ds| ==> !ds[k].dc
  }

  /** The total of the received work counters is the sum over the frames that came back. */
  lemma {:induction false} ReceivedTotal(b: Slaves, ds: seq<Logical>, first: nat, image: seq<bool>, rx: map<nat, Reply>,
                                         st: State)
    requires AllInImage(ds, |image|) && Answered(b, ds, first, image, rx, false) && ClockFirst(ds)
    requires ds != [] && ds[0].dc ==> st.wkc == 0
    ensures ReceiveAll(st, Entries(ds, first), rx).wkc == st.wkc + Returned(b, ds, first, rx)
    ensures ReceiveAll(st, Entries(ds, first), rx).valid <==> st.valid || Arrived(ds, first, rx)
    decreases ds
  {
    if ds != [] {
      var e, rest := Entries(ds, first)[0], ds[1..];
      assert Entries(ds, first)[1..] == Entries(rest, first + 1);
      assert forall k :: 0 <= k < |rest| ==> rest[k] == ds[k + 1];
      ReceivedTotal(b, rest, first + 1, image, rx, Receive(st, e, rx));
    }
  }

  /** The clock kept is that of the slaves if the frame came back that carries it, which is the first one. */
  lemma {:induction false} ClockReceived(b: Slaves, ds: seq<Logical>, first: nat, image: seq<bool>,
                                         rx: map<nat, Reply>, st: State)
    requires AllInImage(ds, |image|) && Answered(b, ds, first, image, rx, false) && ClockFirst(ds)
    ensures ReceiveAll(st, Entries(ds, first), rx).clock
            == if ds != [] && ds[0].dc && first % EC_MAXBUF in rx then b.clock else st.clock
    decreases ds
  {
    if ds != [] {
      var e, rest := Entries(ds, first)[0], ds[1..];
      assert Entries(ds, first)[1..] == Entries(rest, first + 1);
      assert forall k :: 0 <= k < |rest| ==> rest[k] == ds[k + 1];
      ClockReceived(b, rest, first + 1, image, rx, Receive(st, e, rx));
    }
  }

  ghost predicate Arrived(ds: seq<Logical>, first: nat, rx: map<nat, Reply>)
    decreases ds
  {
    ds != [] && (first % EC_MAXBUF in rx || Arrived(ds[1..], first + 1, rx))
  }

  /** Nothing is missing if every frame came back. */
  lemma {:induction false} NothingLost(b: Slaves, ds: seq<Logical>, first: nat, image: seq<bool>, rx: map<nat, Reply>)
    requires AllInImage(ds, |image|) && Answered(b, ds, first, image, rx, true)
    ensures Answered(b, ds, first, image, rx, false) && Returned(b, ds, first, rx) == TotalWorth(b, ds)
    ensures Arrived(ds, first, rx) <==> ds != []
    decreases ds
  {
    if ds != [] {
      InImageTail(ds, |image|);
      NothingLost(b, ds[1..], first + 1, image, rx);
    }
  }

  /** With every frame back the total is what the datagrams are worth. */
  lemma AllReceived(b: Slaves, ds: seq<Logical>, first: nat, image: seq<bool>, rx: map<nat, Reply>, st: State)
    requires AllInImage(ds, |image|) && Answered(b, ds, first, image, rx, true) && ClockFirst(ds) && st.wkc == 0
    ensures var r := ReceiveAll(st, Entries(ds, first), rx);
      r.wkc == TotalWorth(b, ds) && (r.valid <==> st.valid || ds != [])
  {
    NothingLost(b, ds, first, image, rx);
    ReceivedTotal(b, ds, first, image, rx, st);
  }

  // ----- totals of a chain

  lemma {:induction false} ChainWorth(b: Slaves, cmd: Command, addr: nat, off: nat, store: nat, lens: seq<nat>,
                                      dc: bool)
    ensures TotalWorth(b, Chain(cmd, addr, off, store, lens, dc)) ==
            (if cmd == LRD then 0 else 2 * TotalHits(b.outs, addr, lens))
              + (if cmd == LWR then 0 else TotalHits(b.ins, addr, lens))
    ensures ClockFirst(Chain(cmd, addr, off, store, lens, dc))
    ensures !dc ==> NoClock(Chain(cmd, addr, off, store, lens, dc))
    decreases lens
  {
    if lens != [] {
      var ds := Chain(cmd, addr, off, store, lens, dc);
      ChainHead(cmd, addr, off, store, lens, dc);
      ChainWorth(b, cmd, addr + lens[0], off + lens[0], store + lens[0], lens[1..], false);
      assert forall k :: 1 <= k < |ds| ==> ds[k] == ds[1..][k - 1];
    }
  }

  predicate NoClock(ds: seq<Logical>) {
    forall k :: 0 <= k < |ds| ==> !ds[k].dc
  }

  lemma {:induction false} WorthAppend(b: Slaves, x: seq<Logical>, y: seq<Logical>)
    ensures TotalWorth(b, x + y) == TotalWorth(b, x) + TotalWorth(b, y)
  {
    if x == [] {
      assert x + y == y;
    } else {
      assert (x + y)[1..] == x[1..] + y;
      WorthAppend(b, x[1..], y);
    }
  }

  /** What a chain of one command should count. */
  function ExpectedOf(b: Slaves, cmd: Command): nat {
    (if cmd == LRD then 0 else 2 * Expected(b.outs)) + (if cmd == LWR then 0 else Expected(b.ins))
  }

  /** Nothing that the command reaches is mapped outside of these bytes. */
  predicate Reachable(b: Slaves, cmd: Command, from: nat, to: nat) {
    && (cmd != LRD ==> AllInside(b.outs, 8 * from, 8 * to))
    && (cmd != LWR ==> AllInside(b.ins, 8 * from, 8 * to))
  }

  predicate KeptWhole(b: Slaves, cmd: Command, from: nat, lens: seq<nat>) {
    && (cmd != LRD ==> NoneSplit(b.outs, from, lens))
    && (cmd != LWR ==> NoneSplit(b.ins, from, lens))
  }

  /** A chain over all that its command reaches counts at least as much as expected, and as much as
      expected exactly when it splits no slave. */
  lemma ChainCounts(b: Slaves, cmd: Command, addr: nat, off: nat, store: nat, lens: seq<nat>, dc: bool,
                    ds: seq<Logical>, n: nat)
    requires ds == Chain(cmd, addr, off, store, lens, dc) && n == Sum(lens) && Reachable(b, cmd, addr, addr + n)
    ensures TotalWorth(b, ds) >= ExpectedOf(b, cmd)
    ensures TotalWorth(b, ds) == ExpectedOf(b, cmd) <==> KeptWhole(b, cmd, addr, lens)
    ensures ClockFirst(ds) && (!dc ==> NoClock(ds))
  {
    ChainWorth(b, cmd, addr, off, store, lens, dc);
    if cmd != LRD { CountsAreExact(b.outs, addr, lens); }
    if cmd != LWR { CountsAreExact(b.ins, addr, lens); }
  }

  /** The group is tiled: its segments add up to both parts, and from the shared segment on, without
      the bytes that belong to the outputs, to the input part. */
  predicate Tiled(g: View) {
    && Usable(g) && g.inputs == g.obytes
    && Sum(g.segs) == g.obytes + g.ibytes && Sum(g.segs[g.isegment..]) == g.ioffset + g.ibytes
  }

  /** Outputs are mapped in the output part of the logical range, inputs in the input part. */
  predicate InParts(g: View, b: Slaves) {
    && AllInside(b.outs, 8 * g.logstart, 8 * (g.logstart + g.obytes))
    && AllInside(b.ins, 8 * (g.logstart + g.obytes), 8 * (g.logstart + g.obytes + g.ibytes))
  }

  /** No datagram of the cycle ends inside what one slave maps in one direction. */
  predicate SplitsNone(g: View, b: Slaves)
    requires Usable(g)
  {
    if g.blockLRW > 0
    then && (g.obytes > 0 ==> NoneSplit(b.outs, g.logstart, Lens(g.segs, 0, true, g.obytes)))
         && (g.ibytes > 0 ==> NoneSplit(b.ins, g.logstart + g.obytes, ReadLens(g)))
    else g.obytes + g.ibytes > 0 ==> KeptWhole(b, LRW, g.logstart, Lens(g.segs, 0, false, g.obytes + g.ibytes))
  }

  function ExpectedWkc(b: Slaves): nat { 2 * Expected(b.outs) + Expected(b.ins) }

  lemma {:induction false} NothingExpected(spans: seq<Span>, at: int)
    requires AllInside(spans, at, at)
    ensures Expected(spans) == 0
  {
    if spans != [] {
      assert forall k :: 0 <= k < |spans[1..]| ==> spans[1..][k] == spans[k + 1];
      NothingExpected(spans[1..], at);
    }
  }

  lemma WritesWorth(g: View, b: Slaves, dc: bool, ds: seq<Logical>)
    requires Tiled(g) && InParts(g, b) && ds == Writes(g, dc)
    ensures TotalWorth(b, ds) >= 2 * Expected(b.outs) && ClockFirst(ds) && (!dc ==> NoClock(ds))
    ensures TotalWorth(b, ds) == 2 * Expected(b.outs) <==>
              (g.obytes > 0 ==> NoneSplit(b.outs, g.logstart, Lens(g.segs, 0, true, g.obytes)))
  {
    if g.obytes > 0 {
      var lens := Lens(g.segs, 0, true, g.obytes);
      assert Sum(lens) == g.obytes by { ClippedTile(g.segs, g.obytes); }
      ChainCounts(b, LWR, g.logstart, 0, 0, lens, dc, ds, g.obytes);
    } else {
      NothingExpected(b.outs, 8 * g.logstart);
    }
  }

  lemma ReadsWorth(g: View, b: Slaves, ds: seq<Logical>)
    requires Tiled(g) && InParts(g, b) && ds == Reads(g)
    ensures TotalWorth(b, ds) >= Expected(b.ins) && ClockFirst(ds)
    ensures TotalWorth(b, ds) == Expected(b.ins) <==>
              (g.ibytes > 0 ==> NoneSplit(b.ins, g.logstart + g.obytes, ReadLens(g)))
  {
    if g.ibytes > 0 {
      assert Sum(ReadLens(g)) == g.ibytes by { LensTile(g.segs[g.isegment..], g.ioffset, g.ibytes); }
      ChainCounts(b, LRD, g.logstart + g.obytes, g.inputs, g.inputs, ReadLens(g), g.hasdc, ds, g.ibytes);
    } else {
      NothingExpected(b.ins, 8 * (g.logstart + g.obytes));
    }
  }

  /** LRW over the segments, plain or overlapped. */
  lemma CombinedWorth(g: View, b: Slaves, overlap: bool, ds: seq<Logical>)
    requires Usable(g) && Sum(g.segs) == Length(g, overlap) && ds == Combined(g, overlap)
    requires Reachable(b, LRW, g.logstart, g.logstart + Length(g, overlap))
    ensures TotalWorth(b, ds) >= ExpectedWkc(b) && ClockFirst(ds)
    ensures TotalWorth(b, ds) == ExpectedWkc(b) <==>
            KeptWhole(b, LRW, g.logstart, Lens(g.segs, 0, false, Length(g, overlap)))
  {
    var n := Length(g, overlap);
    var lens := Lens(g.segs, 0, false, n);
    var off := if g.obytes > 0 then 0 else g.inputs;
    assert Sum(lens) == n by { LensTile(g.segs, 0, n); }
    ChainCounts(b, LRW, g.logstart, off, off + if overlap && g.obytes > 0 then g.obytes else 0, lens, g.hasdc, ds, n);
  }

  /** Work-counter accounting: with every frame back and every slave answering, a cycle counts at
      least 2 * outputs + inputs, with LRW as with LRD and LWR, and exactly that many when and only
      when no datagram boundary splits what a slave maps. */
  lemma CycleWorth(g: View, b: Slaves)
    requires Tiled(g) && InParts(g, b)
    ensures TotalWorth(b, Cycle(g, false)) >= ExpectedWkc(b)
    ensures TotalWorth(b, Cycle(g, false)) == ExpectedWkc(b) <==> SplitsNone(g, b)
    ensures ClockFirst(Cycle(g, false))
  {
    if g.obytes + g.ibytes == 0 {
      NothingExpected(b.outs, 8 * g.logstart);
      NothingExpected(b.ins, 8 * g.logstart);
    } else if g.blockLRW > 0 {
      SplitWorth(g, b, Split(g));
    } else {
      CombinedWorth(g, b, false, Combined(g, false));
    }
  }

  lemma SplitWorth(g: View, b: Slaves, ds: seq<Logical>)
    requires Tiled(g) && InParts(g, b) && g.blockLRW > 0 && ds == Split(g)
    ensures TotalWorth(b, ds) >= ExpectedWkc(b) && ClockFirst(ds)
    ensures TotalWorth(b, ds) == ExpectedWkc(b) <==> SplitsNone(g, b)
  {
    var x: seq<Logical> := Reads(g);
    var dc := g.hasdc && x == [];
    var y: seq<Logical> := Writes(g, dc);
    WritesWorth(g, b, dc, y);
    ReadsWorth(g, b, x);
    WorthAppend(b, x, y);
    ClockAppend(x, y);
  }

  lemma ClockAppend(x: seq<Logical>, y: seq<Logical>)
    requires ClockFirst(x) && ClockFirst(y) && (x == [] || NoClock(y))
    ensures ClockFirst(x + y)
  {
    var z := x + y;
    forall k | 1 <= k < |z|
      ensures !z[k].dc
    {
      assert z[k] == if k < |x| then x[k] else y[k - |x|];
    }
  }

  /** Only the first datagram of a chain may carry the clock. */
  lemma {:induction false} ChainClock(cmd: Command, addr: nat, off: nat, store: nat, lens: seq<nat>, dc: bool,
                                      ds: seq<Logical>)
    requires ds == Chain(cmd, addr, off, store, lens, dc)
    ensures ClockFirst(ds) && (!dc ==> NoClock(ds)) && (lens != [] ==> ds != [] && ds[0].dc == dc)
    decreases |lens|
  {
    if lens != [] {
      ChainHead(cmd, addr, off, store, lens, dc);
      ChainClock(cmd, addr + lens[0], off + lens[0], store + lens[0], lens[1..], false, ds[1..]);
      assert forall k :: 1 <= k < |ds| ==> ds[k] == ds[1..][k - 1];
    }
  }

  /** The clock rides with the first frame of a cycle, on every path, if there are clocks. */
  lemma ClockRides(g: View, overlap: bool)
    requires Usable(g) && Length(g, overlap) > 0
    ensures var ds := Cycle(g, overlap); ds != [] && ds[0].dc == g.hasdc && ClockFirst(ds)
  {
    if g.blockLRW > 0 {
      var dc := g.hasdc && Reads(g) == [];
      if g.ibytes > 0 {
        ChainClock(LRD, g.logstart + g.obytes, g.inputs, g.inputs, ReadLens(g), g.hasdc, Reads(g));
      }
      if g.obytes > 0 {
        ChainClock(LWR, g.logstart, 0, 0, Lens(g.segs, 0, true, g.obytes), dc, Writes(g, dc));
      }
      ClockAppend(Reads(g), Writes(g, dc));
    } else {
      var off := if g.obytes > 0 then 0 else g.inputs;
      ChainClock(LRW, g.logstart, off, off + if overlap && g.obytes > 0 then g.obytes else 0,
                 Lens(g.segs, 0, false, Length(g, overlap)), g.hasdc, Combined(g, overlap));
    }
  }

  /** After a cycle of which any frames came back, the master has the time of the slaves if there are clocks and the
      first frame came back, and else the time it had. */
  lemma CycleClock(g: View, overlap: bool, b: Slaves, first: nat, image: seq<bool>, rx: map<nat, Reply>, st: State)
    requires InTable(g, overlap) && AllInImage(Cycle(g, overlap), |image|)
    requires Answered(b, Cycle(g, overlap), first, image, rx, false)
    ensures ReceiveAll(st, Entries(Cycle(g, overlap), first), rx).clock
            == if Length(g, overlap) > 0 && g.hasdc && first % EC_MAXBUF in rx then b.clock else st.clock
  {
    if Length(g, overlap) > 0 { ClockRides(g, overlap); }
    ClockReceived(b, Cycle(g, overlap), first, image, rx, st);
  }

  /** What a segment of the table keeps together, the datagrams cut from the table keep together. */
  lemma {:induction false} LensKeepUnsplit(s: Span, segs: seq<nat>, skip: nat, clip: bool, length: nat, from: nat)
    requires NonEmpty(s) && Unsplit(s, from, segs) && skip <= segs[0]
    requires 8 * (from + skip) <= s.a && s.b <= 8 * (from + skip + length)
    requires if clip then Sum(segs) >= skip + length else Sum(segs) == skip + length
    ensures Unsplit(s, from + skip, Lens(segs, skip, clip, length))
    decreases segs
  {
    var sub := Sublength(segs[0] - skip, clip, length);
    var lens := Lens(segs, skip, clip, length);
    assert lens[0] == sub;
    if !(8 * from <= s.a && s.b <= 8 * (from + segs[0])) {
      if s.a < 8 * (from + segs[0]) { SplitStays(s, from + segs[0], segs[1..]); }
      assert lens[1..] == Lens(segs[1..], 0, clip, length - sub);
      LensKeepUnsplit(s, segs[1..], 0, clip, length - sub, from + segs[0]);
    }
  }

  lemma {:induction false} UnsplitBehind(s: Span, segs: seq<nat>, n: nat, from: nat)
    requires NonEmpty(s) && Unsplit(s, from, segs) && n < |segs| && 8 * (from + Sum(segs[..n])) <= s.a
    ensures Unsplit(s, from + Sum(segs[..n]), segs[n..])
    decreases segs
  {
    if n > 0 {
      assert segs[..n][1..] == segs[1..][..n - 1];
      UnsplitBehind(s, segs[1..], n - 1, from + segs[0]);
      assert segs[n..] == segs[1..][n - 1..];
    } else {
      assert segs[..n] == [] && segs[n..] == segs;
    }
  }

  lemma OutputUnsplit(g: View, s: Span)
    requires Tiled(g) && NonEmpty(s) && 8 * g.logstart <= s.a && s.b <= 8 * (g.logstart + g.obytes)
             && Unsplit(s, g.logstart, g.segs)
    ensures Unsplit(s, g.logstart, Lens(g.segs, 0, true, g.obytes))
    ensures Unsplit(s, g.logstart, Lens(g.segs, 0, false, g.obytes + g.ibytes))
  {
    LensKeepUnsplit(s, g.segs, 0, true, g.obytes, g.logstart);
    LensKeepUnsplit(s, g.segs, 0, false, g.obytes + g.ibytes, g.logstart);
  }

  lemma InputUnsplit(g: View, s: Span)
    requires Tiled(g) && NonEmpty(s) && Unsplit(s, g.logstart, g.segs)
    requires 8 * (g.logstart + g.obytes) <= s.a && s.b <= 8 * (g.logstart + g.obytes + g.ibytes)
    ensures Unsplit(s, g.logstart + g.obytes, ReadLens(g))
    ensures Unsplit(s, g.logstart, Lens(g.segs, 0, false, g.obytes + g.ibytes))
  {
    LensKeepUnsplit(s, g.segs, 0, false, g.obytes + g.ibytes, g.logstart);
    var n := g.isegment;
    var before, behind := Sum(g.segs[..n]), g.segs[n..];
    assert before + Sum(behind) == Sum(g.segs) by {
      assert g.segs == g.segs[..n] + g.segs[n..];
      SumAppend(g.segs[..n], g.segs[n..]);
    }
    UnsplitBehind(s, g.segs, n, g.logstart);
    LensKeepUnsplit(s, behind, g.ioffset, false, g.ibytes, g.logstart + before);
  }

  /** If no segment boundary splits a slave's span, neither way of sending does. */
  lemma SegmentsSplitNone(g: View, b: Slaves)
    requires Tiled(g) && InParts(g, b)
    requires NoneSplit(b.outs, g.logstart, g.segs) && NoneSplit(b.ins, g.logstart, g.segs)
    ensures SplitsNone(g, b)
  {
    forall k | 0 <= k < |b.outs| && NonEmpty(b.outs[k])
      ensures Unsplit(b.outs[k], g.logstart, Lens(g.segs, 0, true, g.obytes))
      ensures Unsplit(b.outs[k], g.logstart, Lens(g.segs, 0, false, g.obytes + g.ibytes))
    {
      OutputUnsplit(g, b.outs[k]);
    }
    forall k | 0 <= k < |b.ins| && NonEmpty(b.ins[k])
      ensures Unsplit(b.ins[k], g.logstart + g.obytes, ReadLens(g))
      ensures Unsplit(b.ins[k], g.logstart, Lens(g.segs, 0, false, g.obytes + g.ibytes))
    {
      InputUnsplit(g, b.ins[k]);
    }
  }

  // ----- every cycle of up to 16 frames can be answered completely

  ghost function Replies(b: Slaves, ds: seq<Logical>, first: nat, image: seq<bool>): map<nat, Reply>
    requires AllInImage(ds, |image|)
    decreases ds
  {
    if ds == [] then map[] else Replies(b, ds[1..], first + 1, image)[first % EC_MAXBUF := ReplyTo(b, ds[0], image)]
  }

  /** None of the n indices handed out from `first` on is `idx`. */
  predicate Avoids(first: nat, n: nat, idx: nat)
    decreases n
  {
    n == 0 || (first % EC_MAXBUF != idx && Avoids(first + 1, n - 1, idx))
  }

  lemma {:induction false} IndicesDistinct(first: nat, k: nat, n: nat)
    requires k >= 1 && k + n <= EC_MAXBUF
    ensures Avoids(first + k, n, first % EC_MAXBUF)
    decreases n
  {
    if n > 0 { IndicesDistinct(first, k + 1, n - 1); }
  }

  lemma {:induction false} OtherIndexKeeps(b: Slaves, ds: seq<Logical>, first: nat, image: seq<bool>,
                                           rx: map<nat, Reply>, idx: nat, r: Reply)
    requires AllInImage(ds, |image|) && Answered(b, ds, first, image, rx, true) && Avoids(first, |ds|, idx)
    ensures Answered(b, ds, first, image, rx[idx := r], true)
    decreases ds
  {
    if ds != [] { OtherIndexKeeps(b, ds[1..], first + 1, image, rx, idx, r); }
  }

  /** The indices of up to 16 frames are distinct, so their replies do not get in each other's way. */
  lemma {:induction false} RepliesAnswer(b: Slaves, ds: seq<Logical>, first: nat, image: seq<bool>)
    requires AllInImage(ds, |image|) && |ds| <= EC_MAXBUF
    ensures Answered(b, ds, first, image, Replies(b, ds, first, image), true)
    decreases ds
  {
    if ds != [] {
      var rest := Replies(b, ds[1..], first + 1, image);
      RepliesAnswer(b, ds[1..], first + 1, image);
      IndicesDistinct(first, 1, |ds| - 1);
      var r := ReplyTo(b, ds[0], image);
      OtherIndexKeeps(b, ds[1..], first + 1, image, rest, first % EC_MAXBUF, r);
      assert Replies(b, ds, first, image) == rest[first % EC_MAXBUF := r];
    }
  }
}
