/** The process-data pipeline as a whole: what the mapping of a group lays down is what the cycle
    sends, what the slaves answer, and what the bus layer checks. */
module Pipeline {
  import opened Basics
  import opened FmmuMapping
  import opened Segments
  import opened IoMap
  import WC = WorkCounter
  import opened ProcessData
  import opened CycleProofs
  import opened CycleImages

  // ----- from the plan of a mapping to spans

  /** The bits slave k maps in one direction. */
  function SpanOf(was: seq<SlaveMap>, group: nat, d: Direction, l: Layout, k: nat): WC.Span
    requires 1 <= k < |was| && k < |l.pts|
  {
    if Takes(was[k], group, d) then WC.Span(Aligned(l.pts[k - 1], Bytes(was[k], d)), l.pts[k]) else WC.Span(0, 0)
  }

  function Spans(was: seq<SlaveMap>, group: nat, d: Direction, l: Layout, n: nat): seq<WC.Span>
    requires n < |was| && n < |l.pts|
  {
    if n == 0 then [] else Spans(was, group, d, l, n - 1) + [SpanOf(was, group, d, l, n)]
  }

  lemma {:induction false} SpansAt(was: seq<SlaveMap>, group: nat, d: Direction, l: Layout, n: nat, k: nat)
    requires n < |was| && n < |l.pts|
    ensures |Spans(was, group, d, l, n)| == n
    ensures k < n ==> Spans(was, group, d, l, n)[k] == SpanOf(was, group, d, l, k + 1)
  {
    if n > 0 { SpansAt(was, group, d, l, n - 1, if k < n - 1 then k else 0); }
  }

  /** The counters the mapping increments are the numbers of slaves with something mapped. */
  lemma {:induction false} ExpectedIsAdding(was: seq<SlaveMap>, now: seq<SlaveMap>, group: nat, d: Direction, base: nat,
                                            l: Layout, n: nat, k: nat)
    requires Laid(was, now, group, d, base, l, n) && k <= n
    ensures WC.Expected(Spans(was, group, d, l, k)) == Adding(l.ws, k)
  {
    if k > 0 {
      ExpectedIsAdding(was, now, group, d, base, l, n, k - 1);
      WC.ExpectedAppend(Spans(was, group, d, l, k - 1), SpanOf(was, group, d, l, k));
      assert LaidAt(was, now, group, d, base, l, k);
      if Takes(was[k], group, d) {
        SomeNonEmptyUnion(l.ws[k], d, Aligned(l.pts[k - 1], Bytes(was[k], d)), l.pts[k]);
      }
    }
  }

  // ----- the slaves answer by their windows

  /** The type of a window in a slave: bit 0 lets it be read, bit 1 written (register 0x060B, ETG.1000.4). */
  predicate Enables(fmmutype: nat, d: Direction) {
    if d.Input? then fmmutype % 2 == 1 else fmmutype / 2 % 2 == 1
  }

  /** A slave answers a datagram over the bits [lo, hi) by an active window of the direction. */
  predicate TableAnswers(table: seq<Fmmu>, d: Direction, lo: int, hi: int) {
    lo < hi && exists k :: 0 <= k < |table| && table[k].active && Enables(table[k].fmmutype, d)
                           && FirstBit(table[k]) < hi && lo < EndBit(table[k])
  }

  lemma TableSplits(a: seq<Fmmu>, b: seq<Fmmu>, d: Direction, lo: int, hi: int)
    ensures TableAnswers(a + b, d, lo, hi) <==> TableAnswers(a, d, lo, hi) || TableAnswers(b, d, lo, hi)
  {
    var t := a + b;
    if TableAnswers(a, d, lo, hi) {
      var k :| 0 <= k < |a| && a[k].active && Enables(a[k].fmmutype, d) && FirstBit(a[k]) < hi && lo < EndBit(a[k]);
      assert t[k] == a[k];
    }
    if TableAnswers(b, d, lo, hi) {
      var k :| 0 <= k < |b| && b[k].active && Enables(b[k].fmmutype, d) && FirstBit(b[k]) < hi && lo < EndBit(b[k]);
      assert t[|a| + k] == b[k];
    }
  }

  lemma WindowsAnswer(ws: seq<Fmmu>, of: Direction, d: Direction, a: int, b: int, lo: int, hi: int)
    requires Consecutive(ws, a, b) && Activated(ws, of)
    ensures TableAnswers(ws, d, lo, hi) <==> of == d && WC.Reaches(WC.Span(a, b), lo, hi)
  {
    if lo < hi { TouchesUnion(ws, a, b, lo, hi); }
    if TouchesSome(ws, lo, hi) {
      var k :| 0 <= k < |ws| && FirstBit(ws[k]) < hi && lo < EndBit(ws[k]) && FirstBit(ws[k]) < EndBit(ws[k]);
      assert ws[k].active;
    }
  }

  /** The windows slave k ends up with: first those of its outputs, then those of its inputs. */
  lemma FinalTable(was: seq<SlaveMap>, now: seq<SlaveMap>, group: nat, logstart: nat, base: nat, p: Plan, k: nat)
    requires IsPlan(was, now, group, logstart, base, p) && 1 <= k < |was|
    requires was[k].fmmu == [] && was[k].fmmuUnused == 0
    ensures now[k].fmmu == p.lo.ws[k] + p.li.ws[k]
  {
    assert LaidAt(was, p.mid, group, Output, base, p.lo, k) && LaidAt(p.mid, now, group, Input, base, p.li, k);
    assert p.mid[k].fmmu == p.lo.ws[k] && p.mid[k].fmmuUnused == |p.lo.ws[k]|;
  }

  /** A slave answers a datagram exactly when it reaches what the mapping gave it. */
  lemma SlaveAnswers(was: seq<SlaveMap>, now: seq<SlaveMap>, group: nat, logstart: nat, base: nat, p: Plan, k: nat,
                     lo: int, hi: int)
    requires IsPlan(was, now, group, logstart, base, p) && 1 <= k < |was|
    requires was[k].fmmu == [] && was[k].fmmuUnused == 0
    ensures TableAnswers(now[k].fmmu, Output, lo, hi) <==> WC.Reaches(SpanOf(was, group, Output, p.lo, k), lo, hi)
    ensures TableAnswers(now[k].fmmu, Input, lo, hi) <==> WC.Reaches(SpanOf(p.mid, group, Input, p.li, k), lo, hi)
  {
    FinalTable(was, now, group, logstart, base, p, k);
    TableSplits(p.lo.ws[k], p.li.ws[k], Output, lo, hi);
    TableSplits(p.lo.ws[k], p.li.ws[k], Input, lo, hi);
    assert LaidAt(was, p.mid, group, Output, base, p.lo, k) && LaidAt(p.mid, now, group, Input, base, p.li, k);
    if Takes(was[k], group, Output) {
      var a, b := Aligned(p.lo.pts[k - 1], Bytes(was[k], Output)), p.lo.pts[k];
      WindowsAnswer(p.lo.ws[k], Output, Output, a, b, lo, hi);
      WindowsAnswer(p.lo.ws[k], Output, Input, a, b, lo, hi);
    }
    if Takes(p.mid[k], group, Input) {
      var a, b := Aligned(p.li.pts[k - 1], Bytes(p.mid[k], Input)), p.li.pts[k];
      WindowsAnswer(p.li.ws[k], Input, Output, a, b, lo, hi);
      WindowsAnswer(p.li.ws[k], Input, Input, a, b, lo, hi);
    }
  }

  /** Number of slaves up to n whose windows answer. */
  function Answering(now: seq<SlaveMap>, d: Direction, lo: int, hi: int, n: nat): nat
    requires n < |now|
  {
    if n == 0 then 0 else Answering(now, d, lo, hi, n - 1) + Bit(TableAnswers(now[n].fmmu, d, lo, hi))
  }

  lemma {:induction false} HitsAppend(a: seq<WC.Span>, s: WC.Span, lo: int, hi: int)
    ensures WC.Hits(a + [s], lo, hi) == WC.Hits(a, lo, hi) + Bit(WC.Reaches(s, lo, hi))
  {
    if a == [] {
      assert ([] + [s])[1..] == [];
    } else {
      assert (a + [s])[1..] == a[1..] + [s];
      HitsAppend(a[1..], s, lo, hi);
    }
  }

  /** The answers the work counter adds up are those of the window tables of the slaves. */
  lemma {:induction false} HitsAreAnswers(was: seq<SlaveMap>, now: seq<SlaveMap>, group: nat, logstart: nat, base: nat,
                                          p: Plan, lo: int, hi: int, n: nat)
    requires IsPlan(was, now, group, logstart, base, p) && n < |was|
    requires forall k :: 1 <= k < |was| ==> was[k].fmmu == [] && was[k].fmmuUnused == 0
    ensures WC.Hits(Spans(was, group, Output, p.lo, n), lo, hi) == Answering(now, Output, lo, hi, n)
    ensures WC.Hits(Spans(p.mid, group, Input, p.li, n), lo, hi) == Answering(now, Input, lo, hi, n)
  {
    if n > 0 {
      HitsAreAnswers(was, now, group, logstart, base, p, lo, hi, n - 1);
      HitsAppend(Spans(was, group, Output, p.lo, n - 1), SpanOf(was, group, Output, p.lo, n), lo, hi);
      HitsAppend(Spans(p.mid, group, Input, p.li, n - 1), SpanOf(p.mid, group, Input, p.li, n), lo, hi);
      SlaveAnswers(was, now, group, logstart, base, p, n, lo, hi);
    }
  }

  // ----- the cycle over a mapped group

  /** The view of a group mapped by plan `p`, with the slaves of that mapping on the wire. */
  ghost predicate IsView(was: seq<SlaveMap>, now: seq<SlaveMap>, group: nat, base: nat, p: Plan, g: View, b: Slaves) {
    && IsPlan(was, now, group, g.logstart, base, p)
    && g.obytes == g.inputs == Sum(p.outDiffs) && g.ibytes == Sum(p.inDiffs)
    && g.segs == Table(AccountAll(EMPTY, p.outDiffs + p.inDiffs))
    && g.isegment == |AccountAll(EMPTY, p.outDiffs).closed| && g.ioffset == AccountAll(EMPTY, p.outDiffs).size
    && b.outs == Spans(was, group, Output, p.lo, |was| - 1) && b.ins == Spans(p.mid, group, Input, p.li, |was| - 1)
  }

  lemma MappedTiled(was: seq<SlaveMap>, now: seq<SlaveMap>, group: nat, base: nat, p: Plan, g: View, b: Slaves)
    requires IsView(was, now, group, base, p, g, b) && Fits(p.outDiffs + p.inDiffs)
    ensures Tiled(g)
  {
    SharedSegment(p.outDiffs, p.inDiffs);
  }

  lemma SpansInside(was: seq<SlaveMap>, now: seq<SlaveMap>, group: nat, d: Direction, base: nat, l: Layout, n: nat,
                    lo: int, hi: int)
    requires Laid(was, now, group, d, base, l, n) && lo <= l.pts[0] && l.pts[n] <= hi
    ensures WC.AllInside(Spans(was, group, d, l, n), lo, hi)
  {
    SpansAt(was, group, d, l, n, 0);
    forall k | 0 <= k < n && WC.NonEmpty(Spans(was, group, d, l, n)[k])
      ensures lo <= Spans(was, group, d, l, n)[k].a && Spans(was, group, d, l, n)[k].b <= hi
    {
      SpansAt(was, group, d, l, n, k);
      assert LaidAt(was, now, group, d, base, l, k + 1);
      PointsAscend(was, now, group, d, base, l, n, 0, k);
      PointsAscend(was, now, group, d, base, l, n, k + 1, n);
    }
  }

  lemma MappedInParts(was: seq<SlaveMap>, now: seq<SlaveMap>, group: nat, base: nat, p: Plan, g: View, b: Slaves)
    requires IsView(was, now, group, base, p, g, b)
    ensures InParts(g, b)
  {
    var n := |was| - 1;
    OutputPart(was, now, group, g.logstart, base, p);
    SpansInside(was, p.mid, group, Output, base, p.lo, n, 8 * g.logstart, 8 * (g.logstart + g.obytes));
    SpansInside(p.mid, now, group, Input, base, p.li, n, 8 * (g.logstart + g.obytes),
                8 * (g.logstart + g.obytes + g.ibytes));
  }

  /** Every slave of the group that takes part maps whole bytes. */
  predicate ByteOriented(was: seq<SlaveMap>, group: nat, d: Direction) {
    forall k :: 1 <= k < |was| && Takes(was[k], group, d) ==> Bytes(was[k], d) > 0
  }

  /** What is accounted behind slave k. */
  ghost function DiffsAfter(was: seq<SlaveMap>, group: nat, d: Direction, pts: seq<nat>, k: nat, n: nat): seq<nat>
    requires k <= n < |was| && n < |pts|
    decreases n - k
  {
    if k == n then []
    else (if Takes(was[k + 1], group, d) then [Moved(pts[k], pts[k + 1])] else [])
         + DiffsAfter(was, group, d, pts, k + 1, n)
  }

  lemma {:induction false} DiffsCut(was: seq<SlaveMap>, group: nat, d: Direction, pts: seq<nat>, k: nat, n: nat)
    requires k <= n < |was| && n < |pts|
    ensures Diffs(was, group, d, pts, n) == Diffs(was, group, d, pts, k) + DiffsAfter(was, group, d, pts, k, n)
    decreases n - k
  {
    if k < n { DiffsCut(was, group, d, pts, k + 1, n); }
  }

  lemma DiffsAround(was: seq<SlaveMap>, group: nat, d: Direction, pts: seq<nat>, n: nat, k: nat, before: seq<nat>,
                    after: seq<nat>)
    requires 1 <= k <= n < |was| && n < |pts| && Takes(was[k], group, d)
    ensures before + Diffs(was, group, d, pts, n) + after
            == (before + Diffs(was, group, d, pts, k - 1)) + [Moved(pts[k - 1], pts[k])]
              + (DiffsAfter(was, group, d, pts, k, n) + after)
  {
    DiffsCut(was, group, d, pts, k, n);
  }

  /** A slave that maps whole bytes lies in one segment, whatever is accounted before and after. */
  lemma ByteSlaveUnsplit(was: seq<SlaveMap>, now: seq<SlaveMap>, group: nat, d: Direction, base: nat, l: Layout, n: nat,
                         k: nat, before: seq<nat>, after: seq<nat>, logstart: nat)
    requires Laid(was, now, group, d, base, l, n) && 1 <= k <= n
    requires Takes(was[k], group, d) && Bytes(was[k], d) > 0
    requires l.pts[0] == 8 * (logstart + Sum(before))
    requires Fits(before + Diffs(was, group, d, l.pts, n) + after)
    ensures WC.Unsplit(SpanOf(was, group, d, l, k), logstart,
                       Table(AccountAll(EMPTY, before + Diffs(was, group, d, l.pts, n) + after)))
  {
    var pre, m := before + Diffs(was, group, d, l.pts, k - 1), Moved(l.pts[k - 1], l.pts[k]);
    var post := DiffsAfter(was, group, d, l.pts, k, n) + after;
    var all := before + Diffs(was, group, d, l.pts, n) + after;
    var a := logstart + Sum(pre);
    assert all == pre + [m] + post by { DiffsAround(was, group, d, l.pts, n, k, before, after); }
    assert Within(Table(AccountAll(EMPTY, all)), logstart, a, a + m) by { PieceUnbroken(pre, m, post, logstart); }
    assert a == l.pts[k - 1] / 8 by {
      SumAppend(before, Diffs(was, group, d, l.pts, k - 1));
      DiffsAddUp(was, now, group, d, base, l, n, k - 1);
    }
    assert 8 * a <= Aligned(l.pts[k - 1], Bytes(was[k], d)) && l.pts[k] <= 8 * (a + m) by {
      assert LaidAt(was, now, group, d, base, l, k);
      PlacementMoves(was[k], d, l.pts[k - 1], l.ws[k], l.pts[k]);
    }
    WC.WithinUnsplit(SpanOf(was, group, d, l, k), Table(AccountAll(EMPTY, all)), logstart, a, a + m);
  }

  /** No slave of one direction is split when all map whole bytes. */
  lemma DirectionUnsplit(was: seq<SlaveMap>, now: seq<SlaveMap>, group: nat, d: Direction, base: nat, l: Layout, n: nat,
                         before: seq<nat>, after: seq<nat>, logstart: nat, all: seq<nat>)
    requires Laid(was, now, group, d, base, l, n) && n + 1 == |was| && ByteOriented(was, group, d)
    requires l.pts[0] == 8 * (logstart + Sum(before))
    requires all == before + Diffs(was, group, d, l.pts, n) + after && Fits(all)
    ensures WC.NoneSplit(Spans(was, group, d, l, n), logstart, Table(AccountAll(EMPTY, all)))
  {
    var spans, segs := Spans(was, group, d, l, n), Table(AccountAll(EMPTY, all));
    SpansAt(was, group, d, l, n, 0);
    forall k | 0 <= k < n && WC.NonEmpty(spans[k])
      ensures WC.Unsplit(spans[k], logstart, segs)
    {
      SpansAt(was, group, d, l, n, k);
      ByteSlaveUnsplit(was, now, group, d, base, l, n, k + 1, before, after, logstart);
    }
  }

  /** Slaves that map whole bytes are never split, in neither direction. */
  lemma BytesNeverSplit(was: seq<SlaveMap>, now: seq<SlaveMap>, group: nat, base: nat, p: Plan, g: View, b: Slaves)
    requires IsView(was, now, group, base, p, g, b) && Fits(p.outDiffs + p.inDiffs)
    requires ByteOriented(was, group, Output) && ByteOriented(p.mid, group, Input)
    ensures WC.NoneSplit(b.outs, g.logstart, g.segs) && WC.NoneSplit(b.ins, g.logstart, g.segs)
  {
    OutputsUnsplit(was, now, group, base, p, g, b);
    InputsUnsplit(was, now, group, base, p, g, b);
  }

  lemma Regrouped(x: seq<nat>, y: seq<nat>, z: seq<nat>)
    ensures x + y + z == [] + x + (y + z)
  {
  }

  lemma OutputsUnsplit(was: seq<SlaveMap>, now: seq<SlaveMap>, group: nat, base: nat, p: Plan, g: View, b: Slaves)
    requires IsView(was, now, group, base, p, g, b) && Fits(p.outDiffs + p.inDiffs) && ByteOriented(was, group, Output)
    ensures WC.NoneSplit(b.outs, g.logstart, g.segs)
  {
    var n, all := |was| - 1, p.outDiffs + p.inDiffs;
    Regrouped(Diffs(was, group, Output, p.lo.pts, n), Rest(p.lo.pts[n]), p.inDiffs);
    DirectionUnsplit(was, p.mid, group, Output, base, p.lo, n, [], Rest(p.lo.pts[n]) + p.inDiffs, g.logstart, all);
  }

  lemma InputsUnsplit(was: seq<SlaveMap>, now: seq<SlaveMap>, group: nat, base: nat, p: Plan, g: View, b: Slaves)
    requires IsView(was, now, group, base, p, g, b) && Fits(p.outDiffs + p.inDiffs) && ByteOriented(p.mid, group, Input)
    ensures WC.NoneSplit(b.ins, g.logstart, g.segs)
  {
    var n, all := |was| - 1, p.outDiffs + p.inDiffs;
    assert all == p.outDiffs + Diffs(p.mid, group, Input, p.li.pts, n) + Rest(p.li.pts[n]);
    DirectionUnsplit(p.mid, now, group, Input, base, p.li, n, p.outDiffs, Rest(p.li.pts[n]), g.logstart, all);
  }

  /** What a cycle over a mapped group is worth: at least 2 * outputsWKC + inputsWKC, and exactly that
      when and only when no datagram boundary splits a slave. */
  lemma MappedWorth(was: seq<SlaveMap>, now: seq<SlaveMap>, group: nat, base: nat, p: Plan, g: View, b: Slaves)
    requires IsView(was, now, group, base, p, g, b) && Fits(p.outDiffs + p.inDiffs)
    ensures Tiled(g) && InParts(g, b) && ClockFirst(Cycle(g, false)) && ExpectedWkc(b) == ExpectedCount(p, |was| - 1)
    ensures TotalWorth(b, Cycle(g, false)) >= ExpectedWkc(b)
    ensures TotalWorth(b, Cycle(g, false)) == ExpectedWkc(b) <==> SplitsNone(g, b)
  {
    var n := |was| - 1;
    MappedTiled(was, now, group, base, p, g, b);
    MappedInParts(was, now, group, base, p, g, b);
    ExpectedIsAdding(was, p.mid, group, Output, base, p.lo, n, n);
    ExpectedIsAdding(p.mid, now, group, Input, base, p.li, n, n);
    CycleWorth(g, b);
  }

  /** Slaves that map whole bytes are split by no datagram, on neither path. */
  lemma BytesSplitNone(was: seq<SlaveMap>, now: seq<SlaveMap>, group: nat, base: nat, p: Plan, g: View, b: Slaves)
    requires IsView(was, now, group, base, p, g, b) && Fits(p.outDiffs + p.inDiffs)
    requires ByteOriented(was, group, Output) && ByteOriented(p.mid, group, Input)
    ensures Usable(g) && SplitsNone(g, b)
  {
    MappedTiled(was, now, group, base, p, g, b);
    MappedInParts(was, now, group, base, p, g, b);
    BytesNeverSplit(was, now, group, base, p, g, b);
    SegmentsSplitNone(g, b);
  }

  /** 2 * outputsWKC + inputsWKC as the mapping counted them. */
  ghost function ExpectedCount(p: Plan, n: nat): nat
    requires n < |p.lo.ws| && n < |p.li.ws|
  {
    2 * Adding(p.lo.ws, n) + Adding(p.li.ws, n)
  }

  // ----- one cycle, sent and received

  /** The work counter that receiving yields after the datagrams `ds` were sent and the replies `rx` came back. */
  function Total(ds: seq<Logical>, first: nat, image: seq<bool>, clock: int, rx: map<nat, Reply>): int {
    var st := ReceiveAll(State(image, clock, 0, false), PushAll([], ds, first), rx);
    if st.valid then st.wkc else EC_NOFRAME
  }

  /** The mapped group, with a memory for its map and no more than 16 datagrams in a cycle. */
  ghost predicate Ready(was: seq<SlaveMap>, now: seq<SlaveMap>, group: nat, base: nat, p: Plan, g: View, b: Slaves,
                        image: seq<bool>) {
    && IsView(was, now, group, base, p, g, b) && Fits(p.outDiffs + p.inDiffs) && InTable(g, false)
    && 8 * (g.obytes + g.ibytes) <= |image| && |Cycle(g, false)| <= EC_MAXBUF
  }

  /** What is received is the worth of the frames that came back, or that there was none. */
  lemma TotalIsReturned(b: Slaves, ds: seq<Logical>, first: nat, image: seq<bool>, clock: int, rx: map<nat, Reply>)
    requires |ds| <= EC_MAXBUF && ClockFirst(ds) && AllInImage(ds, |image|) && Answered(b, ds, first, image, rx, false)
    ensures Total(ds, first, image, clock, rx)
            == if Arrived(ds, first, rx) then Returned(b, ds, first, rx) else EC_NOFRAME
  {
    AllPushed([], ds, first);
    assert [] + Entries(ds, first) == Entries(ds, first);
    ReceivedTotal(b, ds, first, image, rx, State(image, clock, 0, false));
  }

  /** With all frames back it is the worth of all. */
  lemma TotalIsWorth(b: Slaves, ds: seq<Logical>, first: nat, image: seq<bool>, clock: int, rx: map<nat, Reply>)
    requires |ds| <= EC_MAXBUF && ClockFirst(ds) && AllInImage(ds, |image|) && Answered(b, ds, first, image, rx, true)
    ensures Total(ds, first, image, clock, rx) == if ds == [] then EC_NOFRAME else TotalWorth(b, ds)
    ensures ds == [] ==> TotalWorth(b, ds) == 0
  {
    NothingLost(b, ds, first, image, rx);
    TotalIsReturned(b, ds, first, image, clock, rx);
  }

  /** Work-counter accounting over mapping, sending and receiving. Every frame of a cycle came back: the
      total received is at least 2 * outputsWKC + inputsWKC, equal exactly when no datagram boundary splits a
      slave, and so always when all slaves map whole bytes; when nothing is mapped, no frame came. */
  lemma WorkCounterAccounting(was: seq<SlaveMap>, now: seq<SlaveMap>, group: nat, base: nat, p: Plan, g: View,
                              b: Slaves, first: nat, image: seq<bool>, clock: int, rx: map<nat, Reply>)
    requires Ready(was, now, group, base, p, g, b, image) && CycleAnswered(g, false, b, first, image, rx, true)
    ensures var total, expected := Total(Cycle(g, false), first, image, clock, rx), ExpectedCount(p, |was| - 1);
      if Cycle(g, false) == [] then total == EC_NOFRAME && expected == 0
      else && total >= expected && (total == expected <==> SplitsNone(g, b))
           && (ByteOriented(was, group, Output) && ByteOriented(p.mid, group, Input) ==> total == expected)
  {
    var ds := Cycle(g, false);
    CycleFromImage(g, false, |image|);
    MappedWorth(was, now, group, base, p, g, b);
    TotalIsWorth(b, ds, first, image, clock, rx);
    if ByteOriented(was, group, Output) && ByteOriented(p.mid, group, Input) {
      BytesSplitNone(was, now, group, base, p, g, b);
    }
  }

  /** The total of a mapped group is below 2 * outputsWKC + inputsWKC exactly when a frame that counts got
      lost or nothing at all came back, if no slave is split; in general exactly when the frames that came
      back are worth less. */
  lemma TooLowIffLost(was: seq<SlaveMap>, now: seq<SlaveMap>, group: nat, base: nat, p: Plan, g: View, b: Slaves,
                      first: nat, image: seq<bool>, clock: int, rx: map<nat, Reply>)
    requires Ready(was, now, group, base, p, g, b, image) && CycleAnswered(g, false, b, first, image, rx, false)
    ensures var ds, total, expected :=
            Cycle(g, false), Total(Cycle(g, false), first, image, clock, rx), ExpectedCount(p, |was| - 1);
      && (total < expected <==> Returned(b, ds, first, rx) < expected || !Arrived(ds, first, rx))
      && (SplitsNone(g, b) ==> total <= expected)
      && (SplitsNone(g, b) ==> (total < expected <==> Lost(b, ds, first, rx) || !Arrived(ds, first, rx)))
  {
    var ds := Cycle(g, false);
    CycleFromImage(g, false, |image|);
    MappedWorth(was, now, group, base, p, g, b);
    TotalIsReturned(b, ds, first, image, clock, rx);
    LossLowersTotal(b, ds, first, rx);
  }

  // ----- a condition on the configuration

  /** Byte sizes of the slaves that take part, in slave order. */
  function Sizes(was: seq<SlaveMap>, group: nat, d: Direction, n: nat): seq<nat>
    requires n < |was|
  {
    if n == 0 then [] else Sizes(was, group, d, n - 1) + if Takes(was[n], group, d) then [Bytes(was[n], d)] else []
  }

  /** Every slave that takes part maps whole bytes, all covered by its sync managers. */
  predicate WholeBytes(was: seq<SlaveMap>, group: nat, d: Direction) {
    forall k :: 1 <= k < |was| && Takes(was[k], group, d) ==>
      |was[k].sms| == EC_MAXSM && Bytes(was[k], d) > 0 && Covered(was[k], d)
  }

  /** Then exactly these sizes are accounted: whether the segments fit is seen from the configuration. */
  lemma {:induction false} SizesAccounted(was: seq<SlaveMap>, now: seq<SlaveMap>, group: nat, d: Direction, base: nat,
                                          l: Layout, n: nat, k: nat)
    requires Laid(was, now, group, d, base, l, n) && k <= n && l.pts[0] % 8 == 0 && WholeBytes(was, group, d)
    ensures Diffs(was, group, d, l.pts, k) == Sizes(was, group, d, k) && l.pts[k] % 8 == 0
  {
    if k > 0 {
      SizesAccounted(was, now, group, d, base, l, n, k - 1);
      assert LaidAt(was, now, group, d, base, l, k);
    }
  }

  /** The segment table adds up to the mapped range exactly when first fit of what is accounted needs no
      more than its 64 entries; for slaves of whole bytes that is first fit of their sizes, outputs then
      inputs. */
  lemma TableAddsUpIff(was: seq<SlaveMap>, now: seq<SlaveMap>, group: nat, base: nat, p: Plan, g: View, b: Slaves)
    requires IsView(was, now, group, base, p, g, b)
    ensures Sum(g.segs) == g.obytes + g.ibytes <==> Fits(p.outDiffs + p.inDiffs)
    ensures InTable(g, false)
    ensures WholeBytes(was, group, Output) && WholeBytes(p.mid, group, Input) ==>
              p.outDiffs + p.inDiffs == Sizes(was, group, Output, |was| - 1) + Sizes(p.mid, group, Input, |was| - 1)
  {
    TableSums(p.outDiffs, p.inDiffs);
    if WholeBytes(was, group, Output) && WholeBytes(p.mid, group, Input) {
      PlanOfSizes(was, now, group, g.logstart, base, p);
    }
  }

  lemma PlanOfSizes(was: seq<SlaveMap>, now: seq<SlaveMap>, group: nat, logstart: nat, base: nat, p: Plan)
    requires IsPlan(was, now, group, logstart, base, p) && WholeBytes(was, group, Output)
             && WholeBytes(p.mid, group, Input)
    ensures |p.mid| == |was| && p.outDiffs == Sizes(was, group, Output, |was| - 1)
            && p.inDiffs == Sizes(p.mid, group, Input, |was| - 1)
  {
    DiffsAreSizes(was, p.mid, group, Output, base, p.lo, |was| - 1, p.outDiffs);
    DiffsAreSizes(p.mid, now, group, Input, base, p.li, |was| - 1, p.inDiffs);
  }

  lemma TableSums(a: seq<nat>, b: seq<nat>)
    ensures var t, c := Table(AccountAll(EMPTY, a + b)), AccountAll(EMPTY, a);
      && Sum(t) <= Sum(a) + Sum(b) && (Sum(t) == Sum(a) + Sum(b) <==> Fits(a + b))
      && |c.closed| < |t| && c.size <= t[|c.closed|]
  {
    SumAppend(a, b);
    SegmentsAddUp(a + b);
    CutExtends(AccountAll(EMPTY, a), b);
    AccountAppend(EMPTY, a, b);
  }

  lemma DiffsAreSizes(was: seq<SlaveMap>, now: seq<SlaveMap>, group: nat, d: Direction, base: nat, l: Layout, n: nat,
                      diffs: seq<nat>)
    requires Laid(was, now, group, d, base, l, n) && n + 1 == |was| && l.pts[0] % 8 == 0 && WholeBytes(was, group, d)
    requires diffs == Diffs(was, group, d, l.pts, n) + Rest(l.pts[n])
    ensures diffs == Sizes(was, group, d, n)
  {
    SizesAccounted(was, now, group, d, base, l, n, n);
    assert Sizes(was, group, d, n) + [] == Sizes(was, group, d, n);
  }
}
