/** The overlapped map and its cycle: the segment table against the length that is sent, the work
    counter, where replies are stored, and what the image holds afterwards. */
module OverlapCycle {
  import opened Basics
  import opened FmmuMapping
  import opened Segments
  import opened IoMap
  import WC = WorkCounter
  import opened ProcessData
  import opened CycleProofs
  import opened CycleImages

  // ----- the segment table

  /** Lengths of both directions as ecx_config_overlap_map_group reports them, from the last slave. */
  ghost predicate OverlapLengths(o: seq<Half>, i: seq<Half>, n: nat, logstart: nat, obytes: nat, ibytes: nat)
    requires n < |o| && n < |i|
  {
    o[0].to == i[0].to == logstart && logstart + obytes == o[n].to && logstart + ibytes == i[n].to
  }

  /** The segments of the table add up to the larger of both lengths, which is what is sent, if and only
      if first fit needs at most 64 of them; else to less. */
  lemma OverlapTableAddsUp(was: seq<SlaveMap>, mid: seq<SlaveMap>, now: seq<SlaveMap>, group: nat, base: nat,
                           o: seq<Half>, i: seq<Half>, n: nat, logstart: nat, obytes: nat, ibytes: nat)
    requires Overlaid(was, mid, now, group, base, o, i, n) && OverlapLengths(o, i, n, logstart, obytes, ibytes)
    ensures var diffs := OverlapDiffs(was, group, o, i, n);
      && Sum(Table(AccountAll(EMPTY, diffs))) <= Max(obytes, ibytes)
      && (Sum(Table(AccountAll(EMPTY, diffs))) == Max(obytes, ibytes) <==> Fits(diffs))
  {
    OverlapAddsUp(was, mid, now, group, base, o, i, n, n);
    SegmentsAddUp(OverlapDiffs(was, group, o, i, n));
  }

  // ----- from the plan to spans

  /** The bits the slaves map in one direction: each from the byte behind its predecessors. */
  function HalfSpans(o: seq<Half>, i: seq<Half>, h: seq<Half>, n: nat): (r: seq<WC.Span>)
    requires n < |o| && n < |i| && n < |h|
    ensures |r| == n
  {
    if n == 0 then [] else HalfSpans(o, i, h, n - 1) + [WC.Span(8 * Reach(o, i, n - 1), h[n].end)]
  }

  lemma {:induction false} HalfSpansAt(o: seq<Half>, i: seq<Half>, h: seq<Half>, n: nat, k: nat)
    requires k < n < |o| && n < |i| && n < |h|
    ensures HalfSpans(o, i, h, n)[k] == WC.Span(8 * Reach(o, i, k), h[k + 1].end)
  {
    if k < n - 1 { HalfSpansAt(o, i, h, n - 1, k); }
  }

  /** The view of a group mapped by plan `p`, with the slaves of that mapping on the wire. */
  ghost predicate OverlapView(was: seq<SlaveMap>, group: nat, base: nat, p: OverlapPlan, g: View, b: Slaves) {
    var n := |was| - 1;
    && n >= 1 && Overlaid(was, p.mid, p.now, group, base, p.o, p.i, n)
    && OverlapLengths(p.o, p.i, n, g.logstart, g.obytes, g.ibytes)
    && g.inputs == g.obytes && g.isegment == 0 && g.ioffset == 0
    && g.segs == Table(AccountAll(EMPTY, OverlapDiffs(was, group, p.o, p.i, n)))
    && b.outs == HalfSpans(p.o, p.i, p.o, n) && b.ins == HalfSpans(p.o, p.i, p.i, n)
  }

  /** The segments add up to what is sent. */
  predicate OverlapTiled(g: View) {
    Usable(g) && g.inputs == g.obytes && g.isegment == 0 && g.ioffset == 0 && Sum(g.segs) == Length(g, true)
  }

  lemma OverlapViewTiled(was: seq<SlaveMap>, group: nat, base: nat, p: OverlapPlan, g: View, b: Slaves)
    requires OverlapView(was, group, base, p, g, b)
    ensures InTable(g, true)
    ensures OverlapTiled(g) <==> Fits(OverlapDiffs(was, group, p.o, p.i, |was| - 1))
  {
    OverlapTableAddsUp(was, p.mid, p.now, group, base, p.o, p.i, |was| - 1, g.logstart, g.obytes, g.ibytes);
  }

  /** Each direction of a slave is done, from the byte behind the predecessors. */
  ghost predicate IsHalf(was: seq<SlaveMap>, mid: seq<SlaveMap>, now: seq<SlaveMap>, group: nat, base: nat,
                         d: Direction, from: nat, h: Half, k: nat)
    requires 1 <= k < |was| && k < |mid| && k < |now|
  {
    if d.Output? then HalfDone(was[k], mid[k], group, Output, base, from, h)
    else HalfDone(mid[k], now[k], group, Input, base, from, h)
  }

  function Side(d: Direction, p: OverlapPlan): seq<Half> { if d.Output? then p.o else p.i }

  lemma HalfAt(was: seq<SlaveMap>, group: nat, base: nat, p: OverlapPlan, n: nat, d: Direction, k: nat)
    requires Overlaid(was, p.mid, p.now, group, base, p.o, p.i, n) && 1 <= k <= n
    ensures IsHalf(was, p.mid, p.now, group, base, d, Reach(p.o, p.i, k - 1), Side(d, p)[k], k)
    ensures Reach(p.o, p.i, k - 1) <= Side(d, p)[k].to <= Reach(p.o, p.i, k)
            && Side(d, p)[k].end <= 8 * Side(d, p)[k].to
  {
    assert OverlaidAt(was, p.mid, p.now, group, base, p.o, p.i, k);
  }

  lemma HalvesInside(was: seq<SlaveMap>, group: nat, base: nat, p: OverlapPlan, n: nat, d: Direction)
    requires Overlaid(was, p.mid, p.now, group, base, p.o, p.i, n) && n >= 1
    ensures WC.AllInside(HalfSpans(p.o, p.i, Side(d, p), n), 8 * Reach(p.o, p.i, 0), 8 * Side(d, p)[n].to)
  {
    var h := Side(d, p);
    var spans := HalfSpans(p.o, p.i, h, n);
    forall k | 0 <= k < |spans| && WC.NonEmpty(spans[k])
      ensures 8 * Reach(p.o, p.i, 0) <= spans[k].a && spans[k].b <= 8 * h[n].to
    {
      HalfSpansAt(p.o, p.i, h, n, k);
      HalfAt(was, group, base, p, n, d, k + 1);
      HalfAt(was, group, base, p, n, d, n);
      ReachAscends(was, p.mid, p.now, group, base, p.o, p.i, n, 0, k);
      if k + 1 < n { ReachAscends(was, p.mid, p.now, group, base, p.o, p.i, n, k + 1, n - 1); }
    }
  }

  lemma HalfHoldsBits(s: SlaveMap, r: SlaveMap, group: nat, d: Direction, base: nat, from: nat, h: Half)
    requires HalfDone(s, r, group, d, base, from, h)
    ensures SomeNonEmpty(h.ws) <==> 8 * from < h.end
  {
    if Takes(s, group, d) { SomeNonEmptyUnion(h.ws, d, 8 * from, h.end); }
  }

  /** The counters of the mapping are the numbers of slaves with something mapped. */
  lemma {:induction false} ExpectedIsAddingHalves(was: seq<SlaveMap>, group: nat, base: nat, p: OverlapPlan, n: nat,
                                                  d: Direction, k: nat)
    requires Overlaid(was, p.mid, p.now, group, base, p.o, p.i, n) && k <= n
    ensures WC.Expected(HalfSpans(p.o, p.i, Side(d, p), k)) == AddingHalves(Side(d, p), k)
  {
    if k > 0 {
      var h := Side(d, p);
      ExpectedIsAddingHalves(was, group, base, p, n, d, k - 1);
      WC.ExpectedAppend(HalfSpans(p.o, p.i, h, k - 1), WC.Span(8 * Reach(p.o, p.i, k - 1), h[k].end));
      HalfAt(was, group, base, p, n, d, k);
      if d.Output? {
        HalfHoldsBits(was[k], p.mid[k], group, d, base, Reach(p.o, p.i, k - 1), h[k]);
      } else {
        HalfHoldsBits(p.mid[k], p.now[k], group, d, base, Reach(p.o, p.i, k - 1), h[k]);
      }
    }
  }

  // ----- no slave is split

  /** What is accounted behind slave k. */
  ghost function OverlapDiffsAfter(was: seq<SlaveMap>, group: nat, o: seq<Half>, i: seq<Half>, k: nat, n: nat): seq<nat>
    requires k <= n < |was| && n < |o| && n < |i|
    decreases n - k
  {
    if k == n then []
    else (if InGroup(was[k + 1], group) then [Moved(8 * Reach(o, i, k), 8 * Reach(o, i, k + 1))] else [])
         + OverlapDiffsAfter(was, group, o, i, k + 1, n)
  }

  lemma {:induction false} OverlapDiffsCut(was: seq<SlaveMap>, group: nat, o: seq<Half>, i: seq<Half>, k: nat, n: nat)
    requires k <= n < |was| && n < |o| && n < |i|
    ensures OverlapDiffs(was, group, o, i, n)
            == OverlapDiffs(was, group, o, i, k) + OverlapDiffsAfter(was, group, o, i, k, n)
    decreases n - k
  {
    if k < n { OverlapDiffsCut(was, group, o, i, k + 1, n); }
  }

  lemma OverlapDiffsAround(was: seq<SlaveMap>, group: nat, o: seq<Half>, i: seq<Half>, k: nat, n: nat)
    requires 1 <= k <= n < |was| && n < |o| && n < |i| && InGroup(was[k], group) && Reach(o, i, k - 1) <= Reach(o, i, k)
    ensures OverlapDiffs(was, group, o, i, n)
            == OverlapDiffs(was, group, o, i, k - 1) + [Reach(o, i, k) - Reach(o, i, k - 1)]
                                                 + OverlapDiffsAfter(was, group, o, i, k, n)
  {
    OverlapDiffsCut(was, group, o, i, k, n);
  }

  /** Each slave is accounted in one piece, and so lies in one segment. */
  lemma SlaveInOneSegment(was: seq<SlaveMap>, group: nat, base: nat, p: OverlapPlan, n: nat, k: nat, logstart: nat,
                          all: seq<nat>)
    requires Overlaid(was, p.mid, p.now, group, base, p.o, p.i, n) && 1 <= k <= n && InGroup(was[k], group)
    requires p.o[0].to == p.i[0].to == logstart && all == OverlapDiffs(was, group, p.o, p.i, n) && Fits(all)
    ensures Within(Table(AccountAll(EMPTY, all)), logstart, Reach(p.o, p.i, k - 1), Reach(p.o, p.i, k))
  {
    var pre, post := OverlapDiffs(was, group, p.o, p.i, k - 1), OverlapDiffsAfter(was, group, p.o, p.i, k, n);
    var from, to := Reach(p.o, p.i, k - 1), Reach(p.o, p.i, k);
    ReachAscends(was, p.mid, p.now, group, base, p.o, p.i, n, k - 1, k);
    assert all == pre + [to - from] + post by { OverlapDiffsAround(was, group, p.o, p.i, k, n); }
    assert logstart + Sum(pre) == from by { OverlapAddsUp(was, p.mid, p.now, group, base, p.o, p.i, n, k - 1); }
    PieceInSegment(pre, to - from, post, all, logstart, from);
  }

  lemma PieceInSegment(pre: seq<nat>, m: nat, post: seq<nat>, all: seq<nat>, logstart: nat, from: nat)
    requires all == pre + [m] + post && Fits(all) && logstart + Sum(pre) == from
    ensures Within(Table(AccountAll(EMPTY, all)), logstart, from, from + m)
  {
    PieceUnbroken(pre, m, post, logstart);
  }

  lemma OutsideGroup(was: seq<SlaveMap>, group: nat, base: nat, p: OverlapPlan, n: nat, d: Direction, k: nat)
    requires Overlaid(was, p.mid, p.now, group, base, p.o, p.i, n) && 1 <= k <= n && !InGroup(was[k], group)
    ensures Side(d, p)[k].end == 8 * Reach(p.o, p.i, k - 1)
  {
    assert OverlaidAt(was, p.mid, p.now, group, base, p.o, p.i, k);
  }

  /** In an overlapped map no slave is ever split between segments. */
  lemma OverlapNeverSplits(was: seq<SlaveMap>, group: nat, base: nat, p: OverlapPlan, n: nat, d: Direction,
                           logstart: nat, segs: seq<nat>)
    requires Overlaid(was, p.mid, p.now, group, base, p.o, p.i, n) && p.o[0].to == p.i[0].to == logstart
    requires Fits(OverlapDiffs(was, group, p.o, p.i, n))
             && segs == Table(AccountAll(EMPTY, OverlapDiffs(was, group, p.o, p.i, n)))
    ensures WC.NoneSplit(HalfSpans(p.o, p.i, Side(d, p), n), logstart, segs)
  {
    var h := Side(d, p);
    var spans := HalfSpans(p.o, p.i, h, n);
    forall k | 0 <= k < |spans| && WC.NonEmpty(spans[k])
      ensures WC.Unsplit(spans[k], logstart, segs)
    {
      HalfSpansAt(p.o, p.i, h, n, k);
      HalfAt(was, group, base, p, n, d, k + 1);
      if !InGroup(was[k + 1], group) { OutsideGroup(was, group, base, p, n, d, k + 1); }
      SlaveInOneSegment(was, group, base, p, n, k + 1, logstart, OverlapDiffs(was, group, p.o, p.i, n));
      WC.WithinUnsplit(spans[k], segs, logstart, Reach(p.o, p.i, k), Reach(p.o, p.i, k + 1));
    }
  }

  // ----- the work counter

  lemma {:induction false} KeptByLens(spans: seq<WC.Span>, segs: seq<nat>, length: nat, from: nat)
    requires segs != [] && Sum(segs) == length && WC.NoneSplit(spans, from, segs)
             && WC.AllInside(spans, 8 * from, 8 * (from + length))
    ensures WC.NoneSplit(spans, from, Lens(segs, 0, false, length))
  {
    forall k | 0 <= k < |spans| && WC.NonEmpty(spans[k])
      ensures WC.Unsplit(spans[k], from, Lens(segs, 0, false, length))
    {
      LensKeepUnsplit(spans[k], segs, 0, false, length, from);
    }
  }

  /** Work-counter accounting of the overlapped map. With LRW and a table that fits, a cycle is worth
      exactly 2 * outputsWKC + inputsWKC, whatever the slaves map. */
  lemma OverlapAccounting(was: seq<SlaveMap>, group: nat, base: nat, p: OverlapPlan, g: View, b: Slaves)
    requires OverlapView(was, group, base, p, g, b) && g.blockLRW == 0
    requires Fits(OverlapDiffs(was, group, p.o, p.i, |was| - 1))
    ensures TotalWorth(b, Cycle(g, true)) == ExpectedWkc(b)
            == 2 * AddingHalves(p.o, |was| - 1) + AddingHalves(p.i, |was| - 1)
    ensures ClockFirst(Cycle(g, true))
  {
    var n := |was| - 1;
    OverlapViewTiled(was, group, base, p, g, b);
    ExpectedIsAddingHalves(was, group, base, p, n, Output, n);
    ExpectedIsAddingHalves(was, group, base, p, n, Input, n);
    OverlapSpans(was, group, base, p, g, b);
    if Length(g, true) == 0 {
      NothingExpected(b.outs, 8 * g.logstart);
      NothingExpected(b.ins, 8 * g.logstart);
    } else {
      KeptByLens(b.outs, g.segs, Length(g, true), g.logstart);
      KeptByLens(b.ins, g.segs, Length(g, true), g.logstart);
      CombinedWorth(g, b, true, Combined(g, true));
    }
  }

  /** Outputs and inputs of an overlapped map lie in the same range, and no segment boundary splits a slave. */
  lemma OverlapSpans(was: seq<SlaveMap>, group: nat, base: nat, p: OverlapPlan, g: View, b: Slaves)
    requires OverlapView(was, group, base, p, g, b) && Fits(OverlapDiffs(was, group, p.o, p.i, |was| - 1))
    ensures WC.AllInside(b.outs, 8 * g.logstart, 8 * (g.logstart + g.obytes))
    ensures WC.AllInside(b.ins, 8 * g.logstart, 8 * (g.logstart + g.ibytes))
    ensures Reachable(b, LRW, g.logstart, g.logstart + Length(g, true))
    ensures WC.NoneSplit(b.outs, g.logstart, g.segs) && WC.NoneSplit(b.ins, g.logstart, g.segs)
  {
    var n := |was| - 1;
    HalvesInside(was, group, base, p, n, Output);
    HalvesInside(was, group, base, p, n, Input);
    OverlapNeverSplits(was, group, base, p, n, Output, g.logstart, g.segs);
    OverlapNeverSplits(was, group, base, p, n, Input, g.logstart, g.segs);
  }

  /** With every frame of such a cycle back, the total is exactly the expected one. */
  lemma OverlapTotal(was: seq<SlaveMap>, group: nat, base: nat, p: OverlapPlan, g: View, b: Slaves, first: nat,
                     image: seq<bool>, rx: map<nat, Reply>, st: State)
    requires OverlapView(was, group, base, p, g, b) && g.blockLRW == 0
             && Fits(OverlapDiffs(was, group, p.o, p.i, |was| - 1))
    requires InTable(g, true) && 8 * (g.obytes + g.ibytes) <= |image| && st.wkc == 0
    requires CycleAnswered(g, true, b, first, image, rx, true)
    ensures ReceiveAll(st, Entries(Cycle(g, true), first), rx).wkc
            == 2 * AddingHalves(p.o, |was| - 1) + AddingHalves(p.i, |was| - 1)
  {
    CycleFromImage(g, true, |image|);
    OverlapAccounting(was, group, base, p, g, b);
    AllReceived(b, Cycle(g, true), first, image, rx, st);
  }

  // ----- where the replies go

  /** Every reply that is stored lies in the first `size` bytes of the memory. */
  predicate StoredInside(ds: seq<Logical>, size: nat) {
    forall k :: 0 <= k < |ds| && ds[k].cmd != LWR ==> ds[k].store + ds[k].len <= size
  }

  lemma {:induction false} ChainStored(cmd: Command, addr: nat, off: nat, store: nat, lens: seq<nat>, dc: bool,
                                       ds: seq<Logical>, size: nat)
    requires ds == Chain(cmd, addr, off, store, lens, dc) && lens != []
    ensures StoredInside(ds, size) <==> cmd == LWR || store + Sum(lens) <= size
    decreases lens
  {
    ChainHead(cmd, addr, off, store, lens, dc);
    assert forall k :: 1 <= k < |ds| ==> ds[k] == ds[1..][k - 1];
    if |lens| > 1 {
      ChainStored(cmd, addr + lens[0], off + lens[0], store + lens[0], lens[1..], false, ds[1..], size);
      assert StoredInside(ds, size) <==>
             (ds[0].cmd != LWR ==> ds[0].store + ds[0].len <= size) && StoredInside(ds[1..], size);
    } else {
      assert Sum(lens[1..]) == 0;
    }
  }

  /** The first segments add up to exactly `length`. */
  predicate EndsAt(segs: seq<nat>, length: int) {
    segs != [] && (segs[0] == length || EndsAt(segs[1..], length - segs[0]))
  }

  /** Unclipped datagrams stop at a segment boundary, or use up the table. */
  lemma {:induction false} LensStop(segs: seq<nat>, length: int)
    requires segs != []
    ensures Sum(Lens(segs, 0, false, length)) == if EndsAt(segs, length) then length else Sum(segs)
  {
    var lens := Lens(segs, 0, false, length);
    if length - segs[0] != 0 && |segs| > 1 {
      LensStop(segs[1..], length - segs[0]);
      assert lens[1..] == Lens(segs[1..], 0, false, length - segs[0]);
    } else {
      assert lens[1..] == [];
      if |segs| == 1 { assert Sum(segs[1..]) == 0 && !EndsAt(segs[1..], length - segs[0]); }
    }
  }

  lemma StoredAppend(x: seq<Logical>, y: seq<Logical>, size: nat)
    ensures StoredInside(x + y, size) <==> StoredInside(x, size) && StoredInside(y, size)
  {
    var z := x + y;
    assert forall k :: 0 <= k < |x| ==> z[k] == x[k];
    assert forall k :: 0 <= k < |y| ==> z[|x| + k] == y[k];
  }

  /** An overlapped cycle stores its replies inside the map that the mapping reported if and only if, with
      LRW, there are no outputs or no more outputs than inputs, and with LRD that or a segment boundary
      where the inputs end. */
  lemma OverlapStaysInside(g: View)
    requires OverlapTiled(g)
    ensures StoredInside(Cycle(g, true), g.obytes + g.ibytes) <==>
              if g.blockLRW > 0 then g.ibytes == 0 || g.obytes <= g.ibytes || EndsAt(g.segs, g.ibytes)
              else g.obytes == 0 || g.obytes <= g.ibytes
  {
    var n, size := Length(g, true), g.obytes + g.ibytes;
    if n > 0 && g.blockLRW > 0 {
      SplitStaysInside(g, size);
    } else if n > 0 {
      var lens := Lens(g.segs, 0, false, n);
      assert Sum(lens) == n by { LensTile(g.segs, 0, n); }
      ChainStored(LRW, g.logstart, 0, g.obytes, lens, g.hasdc, Combined(g, true), size);
    }
  }

  lemma SplitStaysInside(g: View, size: nat)
    requires OverlapTiled(g) && size == g.obytes + g.ibytes
    ensures StoredInside(Split(g), size) <==> g.ibytes == 0 || g.obytes <= g.ibytes || EndsAt(g.segs, g.ibytes)
  {
    var dc := g.hasdc && Reads(g) == [];
    StoredAppend(Reads(g), Writes(g, dc), size);
    if g.obytes > 0 { ChainStored(LWR, g.logstart, 0, 0, Lens(g.segs, 0, true, g.obytes), dc, Writes(g, dc), size); }
    if g.ibytes > 0 {
      assert g.segs[0..] == g.segs;
      assert Sum(ReadLens(g)) == if EndsAt(g.segs, g.ibytes) then g.ibytes else Sum(g.segs) by {
        LensStop(g.segs, g.ibytes);
      }
      ChainStored(LRD, g.logstart + g.obytes, g.inputs, g.inputs, ReadLens(g), g.hasdc, Reads(g), size);
    }
  }

  /** With two bytes of outputs and one of inputs in one segment, the reply is stored in the bytes 2 and 3 of
      a map of 3 bytes, with LRW and with LRD. */
  lemma OverlapOverrun(blockLRW: nat)
    ensures var g := View(0, 2, 1, 2, [2], 0, 0, blockLRW, false);
      OverlapTiled(g) && !StoredInside(Cycle(g, true), g.obytes + g.ibytes)
  {
    var g := View(0, 2, 1, 2, [2], 0, 0, blockLRW, false);
    assert Sum([2]) == 2 + Sum([]) && g.segs[1..] == [];
    OverlapStaysInside(g);
  }

  // ----- the image

  /** Bit j of the memory after an overlapped LRW cycle: behind the outputs stands the whole range as the
      slaves left it, inputs where they map some, and the sent outputs elsewhere. */
  ghost function AfterOverlap(g: View, b: Slaves, image: seq<bool>, j: nat): bool
    requires j < |image|
  {
    if 8 * g.obytes <= j < 8 * (g.obytes + Length(g, true)) then
      var bit := 8 * g.logstart + j - 8 * g.obytes;
      if Maps(b.ins, bit) then b.level(bit) else image[j - 8 * g.obytes]
    else image[j]
  }

  ghost predicate IsAfterOverlap(g: View, b: Slaves, image: seq<bool>, r: seq<bool>) {
    |r| == |image| && forall j :: 0 <= j < |r| ==> r[j] == AfterOverlap(g, b, image, j)
  }

  lemma RefreshedIsAfterOverlap(g: View, b: Slaves, image: seq<bool>, r: seq<bool>)
    requires 8 * (g.obytes + Length(g, true)) <= |image| && IsRefreshed(b, ExchangeAll(g, true), image, image, r)
    ensures IsAfterOverlap(g, b, image, r)
  {
  }

  /** After an overlapped cycle with LRW whose frames all came back, each mapped input bit stands as far
      behind the outputs as it stands in the logical range, and the outputs are as before. */
  lemma OverlapImage(g: View, b: Slaves, first: nat, image: seq<bool>, rx: map<nat, Reply>, st: State)
    requires OverlapTiled(g) && g.blockLRW == 0 && st.image == image
    requires 8 * (g.obytes + Length(g, true)) <= |image| && CycleAnswered(g, true, b, first, image, rx, true)
    ensures IsAfterOverlap(g, b, image, ImageAfter(g, true, first, rx, st))
  {
    CycleFromImage(g, true, |image|);
    if Length(g, true) > 0 {
      CombinedImage(g, true, b, Cycle(g, true), first, image, rx, st);
      RefreshedIsAfterOverlap(g, b, image, ImageAfter(g, true, first, rx, st));
    } else {
      NoReplies(Cycle(g, true), first, rx, st);
    }
  }

  /** Bit j after an overlapped cycle with LRD: the read starts behind the outputs in the logical range
      also, where an overlapped map has nothing or the wrong inputs. */
  ghost function AfterOverlapSplit(g: View, b: Slaves, image: seq<bool>, j: nat): bool
    requires j < |image|
  {
    var n := if EndsAt(g.segs, g.ibytes) then g.ibytes else Length(g, true);
    if g.ibytes > 0 && 8 * g.obytes <= j < 8 * (g.obytes + n)
    then Maps(b.ins, 8 * g.logstart + j) && b.level(8 * g.logstart + j) else image[j]
  }

  ghost predicate IsAfterOverlapSplit(g: View, b: Slaves, image: seq<bool>, r: seq<bool>) {
    |r| == |image| && forall j :: 0 <= j < |r| ==> r[j] == AfterOverlapSplit(g, b, image, j)
  }

  /** What the reads of an overlapped cycle cut. */
  function OverlapRead(g: View): Logical {
    Logical(LRD, g.logstart + g.obytes, g.obytes, g.obytes,
             if g.ibytes == 0 then 0 else if EndsAt(g.segs, g.ibytes) then g.ibytes else Length(g, true), g.hasdc)
  }

  lemma RefreshedIsAfterOverlapSplit(g: View, b: Slaves, image: seq<bool>, r: seq<bool>)
    requires IsRefreshed(b, OverlapRead(g), image, image, r)
    ensures IsAfterOverlapSplit(g, b, image, r)
  {
    forall j | 0 <= j < |r|
      ensures r[j] == AfterOverlapSplit(g, b, image, j)
    {
      assert 8 * (g.logstart + g.obytes) + j - 8 * g.obytes == 8 * g.logstart + j;
    }
  }

  /** The memory after an overlapped cycle with LRD and LWR whose frames all came back, bit by bit. When these bits
      are the inputs is the subject of OverlapSplit. */
  lemma OverlapSplitImage(g: View, b: Slaves, first: nat, image: seq<bool>, rx: map<nat, Reply>, st: State)
    requires OverlapTiled(g) && g.blockLRW > 0 && st.image == image
    requires 8 * (g.obytes + Length(g, true)) <= |image| && CycleAnswered(g, true, b, first, image, rx, true)
    ensures IsAfterOverlapSplit(g, b, image, ImageAfter(g, true, first, rx, st))
  {
    CycleFromImage(g, true, |image|);
    if Length(g, true) > 0 {
      OverlapReads(g);
      SplitImage(g, b, OverlapRead(g), first, image, rx, st);
    } else {
      NoReplies(Cycle(g, true), first, rx, st);
      NothingRefreshed(b, OverlapRead(g), image, image);
    }
    RefreshedIsAfterOverlapSplit(g, b, image, ImageAfter(g, true, first, rx, st));
  }

  lemma OverlapReads(g: View)
    requires OverlapTiled(g)
    ensures g.ibytes > 0 ==> Cuts(Reads(g), OverlapRead(g), ReadLens(g))
  {
    assert g.segs[0..] == g.segs;
    LensStop(g.segs, g.ibytes);
  }

  /** The inputs of the overlapped LRW cycle arrive where the shifted pointers of the slaves point, the
      outputs in the image stay as they were, and the slaves get them. */
  lemma OverlapRoundTrip(was: seq<SlaveMap>, group: nat, base: nat, p: OverlapPlan, g: View, b: Slaves, first: nat,
                         image: seq<bool>, rx: map<nat, Reply>, st: State)
    requires OverlapView(was, group, base, p, g, b) && Fits(OverlapDiffs(was, group, p.o, p.i, |was| - 1))
    requires InTable(g, true) && g.blockLRW == 0 && st.image == image && 8 * (g.obytes + Length(g, true)) <= |image|
    requires CycleAnswered(g, true, b, first, image, rx, true)
    ensures InputsArrive(g, b, ImageAfter(g, true, first, rx, st))
            && OutputsStay(g, image, ImageAfter(g, true, first, rx, st))
    ensures OutputsArrive(g, b, image)
  {
    assert OverlapTiled(g) by { OverlapViewTiled(was, group, base, p, g, b); }
    OverlapSpans(was, group, base, p, g, b);
    OverlapExchange(g, b, first, image, rx, st);
  }

  lemma OverlapExchange(g: View, b: Slaves, first: nat, image: seq<bool>, rx: map<nat, Reply>, st: State)
    requires OverlapTiled(g) && g.blockLRW == 0 && st.image == image && 8 * (g.obytes + Length(g, true)) <= |image|
    requires WC.AllInside(b.outs, 8 * g.logstart, 8 * (g.logstart + g.obytes))
    requires WC.AllInside(b.ins, 8 * g.logstart, 8 * (g.logstart + g.ibytes))
    requires CycleAnswered(g, true, b, first, image, rx, true)
    ensures InputsArrive(g, b, ImageAfter(g, true, first, rx, st))
            && OutputsStay(g, image, ImageAfter(g, true, first, rx, st))
    ensures OutputsArrive(g, b, image)
  {
    OverlapImage(g, b, first, image, rx, st);
    ArrivedInputs(g, b, image, ImageAfter(g, true, first, rx, st));
    ArrivedOutputs(g, b, image);
  }

  predicate OutputsStay(g: View, image: seq<bool>, r: seq<bool>) {
    |r| == |image| >= 8 * g.obytes && r[..8 * g.obytes] == image[..8 * g.obytes]
  }

  /** Every mapped input bit stands as far behind the outputs as in the logical range. */
  ghost predicate InputsArrive(g: View, b: Slaves, r: seq<bool>) {
    forall bit {:trigger Maps(b.ins, bit)} :: Maps(b.ins, bit) ==>
      0 <= bit - 8 * g.logstart + 8 * g.obytes < |r| && r[bit - 8 * g.logstart + 8 * g.obytes] == b.level(bit)
  }

  /** Every mapped output bit of the slaves gets its bit of the image. */
  ghost predicate OutputsArrive(g: View, b: Slaves, image: seq<bool>)
    requires InTable(g, true) && 8 * (g.obytes + g.ibytes) <= |image|
  {
    forall bit, was {:trigger BitWritten(g, true, b, image, bit, was)} :: Maps(b.outs, bit) ==>
      0 <= bit - 8 * g.logstart < |image| && BitWritten(g, true, b, image, bit, was) == image[bit - 8 * g.logstart]
  }

  lemma ArrivedInputs(g: View, b: Slaves, image: seq<bool>, r: seq<bool>)
    requires IsAfterOverlap(g, b, image, r) && 8 * (g.obytes + Length(g, true)) <= |image|
    requires WC.AllInside(b.ins, 8 * g.logstart, 8 * (g.logstart + g.ibytes))
    ensures InputsArrive(g, b, r) && OutputsStay(g, image, r)
  {
    forall bit {:trigger Maps(b.ins, bit)} | Maps(b.ins, bit)
      ensures 0 <= bit - 8 * g.logstart + 8 * g.obytes < |r| && r[bit - 8 * g.logstart + 8 * g.obytes] == b.level(bit)
    {
      MapsInside(b.ins, bit, 8 * g.logstart, 8 * (g.logstart + g.ibytes));
      var j := bit - 8 * g.logstart + 8 * g.obytes;
      assert r[j] == AfterOverlap(g, b, image, j);
    }
  }

  lemma ArrivedOutputs(g: View, b: Slaves, image: seq<bool>)
    requires OverlapTiled(g) && InTable(g, true) && 8 * (g.obytes + g.ibytes) <= |image|
    requires WC.AllInside(b.outs, 8 * g.logstart, 8 * (g.logstart + g.obytes))
    ensures OutputsArrive(g, b, image)
  {
    forall bit, was {:trigger BitWritten(g, true, b, image, bit, was)} | Maps(b.outs, bit)
      ensures 0 <= bit - 8 * g.logstart < |image|
              && BitWritten(g, true, b, image, bit, was) == image[bit - 8 * g.logstart]
    {
      MapsInside(b.outs, bit, 8 * g.logstart, 8 * (g.logstart + g.obytes));
      OutputsDelivered(g, true, b, image, bit, was);
    }
  }
}
