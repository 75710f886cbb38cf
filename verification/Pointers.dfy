/** Where the data pointers of the slaves point: each slave finds its inputs through its pointer and start bit, and
    what stands behind its output pointer is what it gets, in a plain map and in an overlapped one. */
module Pointers {
  import opened Basics
  import opened FmmuMapping
  import opened Segments
  import opened IoMap
  import WC = WorkCounter
  import opened ProcessData
  import opened CycleProofs
  import opened CycleImages
  import opened Pipeline
  import opened OverlapCycle

  /** A slave that takes part has a window. */
  lemma SomeWindow(s: SlaveMap, d: Direction, ws: seq<Fmmu>)
    requires Bits(s, d) > 0 && AllWindows(s, d, ws)
    ensures ws != []
  {
    assert IsCount(s, d, |ws|);
  }

  /** One direction of one slave: a pointer that was not set leads to the first window, in bytes from `base` on; the
      other direction is left alone. */
  lemma PointerSet(s: SlaveMap, r: SlaveMap, group: nat, d: Direction, base: nat, from: nat, to: nat, ws: seq<Fmmu>)
    requires SlaveDone(s, r, group, d, base, from, to, ws)
    ensures Takes(s, group, d) && Pointer(s, d).None? ==> PointsTo(r, d, Aligned(from, Bytes(s, d)) - 8 * base)
    ensures forall e: Direction :: e != d ==>
              Pointer(r, e) == Pointer(s, e) && StartOf(r, e) == StartOf(s, e)
                && Takes(r, group, e) == Takes(s, group, e)
              && Bytes(r, e) == Bytes(s, e) && Bits(r, e) == Bits(s, e)
  {
    if Takes(s, group, d) {
      SomeWindow(s, d, ws);
      var first: nat :| s.fmmuUnused <= first <= |s.fmmu| && r == Mapped(s, d, first, ws, base);
      FirstWindow(s, d, first, ws, base, Aligned(from, Bytes(s, d)), to);
    }
  }

  // ----- the plain map

  /** The bits slave k maps in one direction of a plan. */
  function Area(was: seq<SlaveMap>, group: nat, p: Plan, d: Direction, k: nat): WC.Span
    requires 1 <= k < |was| && k < |p.mid| && k < |p.lo.pts| && k < |p.li.pts|
  {
    if d.Output? then SpanOf(was, group, Output, p.lo, k) else SpanOf(p.mid, group, Input, p.li, k)
  }

  lemma PlanPoints(was: seq<SlaveMap>, now: seq<SlaveMap>, group: nat, logstart: nat, base: nat, p: Plan, d: Direction,
                   k: nat)
    requires IsPlan(was, now, group, logstart, base, p) && 1 <= k < |was|
    requires Takes(was[k], group, d) && Pointer(was[k], d).None?
    ensures PointsTo(now[k], d, Area(was, group, p, d, k).a - 8 * base)
  {
    var m := p.mid[k];
    assert LaidAt(was, p.mid, group, Output, base, p.lo, k) && LaidAt(p.mid, now, group, Input, base, p.li, k);
    PointerSet(was[k], m, group, Output, base, p.lo.pts[k - 1], p.lo.pts[k], p.lo.ws[k]);
    PointerSet(m, now[k], group, Input, base, p.li.pts[k - 1], p.li.pts[k], p.li.ws[k]);
  }

  /** Slaves of other groups keep their records. */
  lemma OthersLeftAlone(was: seq<SlaveMap>, now: seq<SlaveMap>, group: nat, logstart: nat, base: nat, p: Plan, k: nat)
    requires IsPlan(was, now, group, logstart, base, p) && 1 <= k < |was| && group != 0 && was[k].group != group
    ensures now[k] == was[k]
  {
    assert LaidAt(was, p.mid, group, Output, base, p.lo, k) && LaidAt(p.mid, now, group, Input, base, p.li, k);
  }

  /** The bits between which a slave finds its data are those of the logical range it maps, from the start of the
      group on, if and only if the group has a number or starts at 0: group 0 does not subtract its start. */
  lemma PointersRightIff(was: seq<SlaveMap>, now: seq<SlaveMap>, group: nat, logstart: nat, base: nat, p: Plan,
                         d: Direction, k: nat)
    requires IsPlan(was, now, group, logstart, base, p) && 1 <= k < |was| && base == if group != 0 then logstart else 0
    requires Takes(was[k], group, d) && Pointer(was[k], d).None?
    ensures PointsTo(now[k], d, Area(was, group, p, d, k).a - 8 * logstart) <==> group != 0 || logstart == 0
  {
    PlanPoints(was, now, group, logstart, base, p, d, k);
  }

  /** Sync managers cover what the slave maps in a direction, or it maps less than a byte. */
  predicate Held(s: SlaveMap, d: Direction) {
    Sized(s, d) && (Bytes(s, d) > 0 ==> |s.sms| == EC_MAXSM && Covered(s, d))
  }

  /** There is room for all bits of the slave: exactly its bits below a byte, else whole bytes, if its sync managers
      cover them. */
  lemma AreaHolds(was: seq<SlaveMap>, now: seq<SlaveMap>, group: nat, logstart: nat, base: nat, p: Plan, d: Direction,
                  k: nat)
    requires IsPlan(was, now, group, logstart, base, p) && 1 <= k < |was| && Takes(was[k], group, d) && Held(was[k], d)
    ensures var s := Area(was, group, p, d, k);
      s.b - s.a == (if Bits(was[k], d) < 8 then Bits(was[k], d) else 8 * Bytes(was[k], d)) >= Bits(was[k], d)
  {
    var m := p.mid[k];
    assert LaidAt(was, p.mid, group, Output, base, p.lo, k) && LaidAt(p.mid, now, group, Input, base, p.li, k);
    PointerSet(was[k], m, group, Output, base, p.lo.pts[k - 1], p.lo.pts[k], p.lo.ws[k]);
    assert m.sms == was[k].sms;
    SameTotals(was[k], m, d, EC_MAXSM - 1);
  }

  lemma {:induction false} SameTotals(a: SlaveMap, b: SlaveMap, d: Direction, n: nat)
    requires a.sms == b.sms && n <= |a.sms|
    ensures SmTotal(a, d, n) == SmTotal(b, d, n)
  {
    if n > 0 { SameTotals(a, b, d, n - 1); }
  }

  lemma AreaWithin(was: seq<SlaveMap>, now: seq<SlaveMap>, group: nat, logstart: nat, base: nat, p: Plan, d: Direction,
                   k: nat)
    requires IsPlan(was, now, group, logstart, base, p) && 1 <= k < |was| && Takes(was[k], group, d)
    ensures Takes(p.mid[k], group, Input) == Takes(was[k], group, Input)
    ensures var s, pts := Area(was, group, p, d, k), if d.Output? then p.lo.pts else p.li.pts;
      pts[0] <= pts[k - 1] <= s.a <= s.b == pts[k] <= pts[|was| - 1]
  {
    var m, n := p.mid[k], |was| - 1;
    assert LaidAt(was, p.mid, group, Output, base, p.lo, k) && LaidAt(p.mid, now, group, Input, base, p.li, k);
    PointerSet(was[k], m, group, Output, base, p.lo.pts[k - 1], p.lo.pts[k], p.lo.ws[k]);
    if d.Output? {
      PointsAscend(was, p.mid, group, Output, base, p.lo, n, 0, k - 1);
      PointsAscend(was, p.mid, group, Output, base, p.lo, n, k, n);
    } else {
      PointsAscend(p.mid, now, group, Input, base, p.li, n, 0, k - 1);
      PointsAscend(p.mid, now, group, Input, base, p.li, n, k, n);
    }
  }

  /** Nothing is wasted: a slave of less than a byte begins right behind its predecessors, any other at the next whole
      byte, and the first one at the start of its part. */
  lemma NoGaps(was: seq<SlaveMap>, now: seq<SlaveMap>, group: nat, logstart: nat, base: nat, p: Plan, d: Direction,
               k: nat)
    requires IsPlan(was, now, group, logstart, base, p) && 1 <= k < |was| && Takes(was[k], group, d)
             && Sized(was[k], d)
    ensures var a, pts := Area(was, group, p, d, k).a, if d.Output? then p.lo.pts else p.li.pts;
      && (if Bits(was[k], d) < 8 then a == pts[k - 1] else a % 8 == 0 && pts[k - 1] <= a < pts[k - 1] + 8)
      && pts[0] == 8 * (if d.Output? then logstart else logstart + Sum(p.outDiffs))
  {
    var m := p.mid[k];
    assert LaidAt(was, p.mid, group, Output, base, p.lo, k);
    PointerSet(was[k], m, group, Output, base, p.lo.pts[k - 1], p.lo.pts[k], p.lo.ws[k]);
    AreaWithin(was, now, group, logstart, base, p, d, k);
  }

  lemma PlanHalves(was: seq<SlaveMap>, now: seq<SlaveMap>, group: nat, logstart: nat, base: nat, p: Plan)
    requires IsPlan(was, now, group, logstart, base, p)
    ensures p.lo.pts[|was| - 1] <= p.li.pts[0]
  {
    OutputPart(was, now, group, logstart, base, p);
  }

  lemma NextArea(was: seq<SlaveMap>, now: seq<SlaveMap>, group: nat, logstart: nat, base: nat, p: Plan, d: Direction,
                 j: nat, k: nat)
    requires IsPlan(was, now, group, logstart, base, p) && 1 <= j < k < |was|
    ensures d.Output? ==> p.lo.pts[j] <= p.lo.pts[k - 1]
    ensures d.Input? ==> p.li.pts[j] <= p.li.pts[k - 1]
  {
    if d.Output? {
      PointsAscend(was, p.mid, group, Output, base, p.lo, |was| - 1, j, k - 1);
    } else {
      PointsAscend(p.mid, now, group, Input, base, p.li, |was| - 1, j, k - 1);
    }
  }

  /** The data of two slaves, or of two directions of one, share no bit: all outputs come before all inputs, and in a
      direction the slaves come in order. */
  lemma AreasApart(was: seq<SlaveMap>, now: seq<SlaveMap>, group: nat, logstart: nat, base: nat, p: Plan, d: Direction,
                   j: nat, e: Direction, k: nat)
    requires IsPlan(was, now, group, logstart, base, p) && 1 <= j < |was| && 1 <= k < |was|
    requires Takes(was[j], group, d) && Takes(was[k], group, e) && ((d.Output? && e.Input?) || (d == e && j < k))
    ensures Area(was, group, p, d, j).b <= Area(was, group, p, e, k).a
  {
    AreaWithin(was, now, group, logstart, base, p, d, j);
    AreaWithin(was, now, group, logstart, base, p, e, k);
    if d == e {
      NextArea(was, now, group, logstart, base, p, d, j, k);
    } else {
      PlanHalves(was, now, group, logstart, base, p);
    }
  }

  /** So behind each pointer there is room for all bits of its slave before another one's begin. */
  lemma PointersApart(was: seq<SlaveMap>, now: seq<SlaveMap>, group: nat, logstart: nat, base: nat, p: Plan,
                      d: Direction, j: nat, e: Direction, k: nat)
    requires IsPlan(was, now, group, logstart, base, p) && 1 <= j < |was| && 1 <= k < |was|
    requires Takes(was[j], group, d) && Takes(was[k], group, e) && ((d.Output? && e.Input?) || (d == e && j < k))
    requires Pointer(was[j], d).None? && Pointer(was[k], e).None?
    requires Held(was[j], d)
    ensures Pointer(now[j], d).Some? && Pointer(now[k], e).Some?
    ensures 8 * Pointer(now[j], d).value + StartOf(now[j], d) + Bits(was[j], d)
            <= 8 * Pointer(now[k], e).value + StartOf(now[k], e)
  {
    PlanPoints(was, now, group, logstart, base, p, d, j);
    PlanPoints(was, now, group, logstart, base, p, e, k);
    AreaHolds(was, now, group, logstart, base, p, d, j);
    AreasApart(was, now, group, logstart, base, p, d, j, e, k);
  }

  // ----- what stands there after a cycle

  /** An input bit of slave s stands as far behind its pointer as it stands in the bits `area` that the slave maps. */
  ghost predicate InputAt(s: SlaveMap, area: WC.Span, b: Slaves, image: seq<bool>, bit: int)
    requires s.inputs.Some?
  {
    var j := 8 * s.inputs.value + s.istartbit + (bit - area.a);
    0 <= j < |image| && image[j] == b.level(bit)
  }

  ghost predicate InputsAt(s: SlaveMap, area: WC.Span, b: Slaves, image: seq<bool>) {
    s.inputs.Some? && forall bit :: area.a <= bit < area.b ==> InputAt(s, area, b, image, bit)
  }

  /** And an output bit gets what stands as far behind its pointer. */
  ghost predicate OutputAt(s: SlaveMap, area: WC.Span, g: View, overlap: bool, b: Slaves, image: seq<bool>, bit: int)
    requires s.outputs.Some? && InTable(g, overlap) && 8 * (g.obytes + g.ibytes) <= |image|
  {
    var j := 8 * s.outputs.value + s.ostartbit + (bit - area.a);
    0 <= j < |image| && forall was :: BitWritten(g, overlap, b, image, bit, was) == image[j]
  }

  ghost predicate OutputsAt(s: SlaveMap, area: WC.Span, g: View, overlap: bool, b: Slaves, image: seq<bool>)
    requires InTable(g, overlap) && 8 * (g.obytes + g.ibytes) <= |image|
  {
    s.outputs.Some? && forall bit :: area.a <= bit < area.b ==> OutputAt(s, area, g, overlap, b, image, bit)
  }

  /** All bits of the area are mapped. */
  predicate AllMapped(spans: seq<WC.Span>, area: WC.Span) {
    forall bit {:trigger Maps(spans, bit)} :: area.a <= bit < area.b ==> Maps(spans, bit)
  }

  lemma SpanMapped(spans: seq<WC.Span>, k: nat)
    requires k < |spans|
    ensures AllMapped(spans, spans[k])
  {
  }

  lemma SpanOfMapped(spans: seq<WC.Span>, was: seq<SlaveMap>, group: nat, d: Direction, l: Layout, n: nat, k: nat)
    requires 1 <= k <= n < |was| && n < |l.pts| && spans == Spans(was, group, d, l, n)
    ensures AllMapped(spans, SpanOf(was, group, d, l, k))
  {
    SpansAt(was, group, d, l, n, k - 1);
    SpanMapped(spans, k - 1);
  }

  /** The slaves on the wire map what the plan says. */
  ghost predicate OnWire(was: seq<SlaveMap>, group: nat, p: Plan, b: Slaves) {
    && 1 <= |was| <= |p.mid| && |was| <= |p.lo.pts| && |was| <= |p.li.pts|
    && b.outs == Spans(was, group, Output, p.lo, |was| - 1) && b.ins == Spans(p.mid, group, Input, p.li, |was| - 1)
  }

  lemma ViewOnWire(was: seq<SlaveMap>, now: seq<SlaveMap>, group: nat, base: nat, p: Plan, g: View, b: Slaves)
    requires IsView(was, now, group, base, p, g, b)
    ensures OnWire(was, group, p, b) && IsPlan(was, now, group, g.logstart, base, p)
    ensures |p.mid| == |was| == |now| == |p.lo.pts| == |p.li.pts|
  {
  }

  lemma AreaMapped(was: seq<SlaveMap>, group: nat, p: Plan, b: Slaves, k: nat)
    requires OnWire(was, group, p, b) && 1 <= k < |was|
    ensures AllMapped(b.outs, Area(was, group, p, Output, k)) && AllMapped(b.ins, Area(was, group, p, Input, k))
  {
    SpanOfMapped(b.outs, was, group, Output, p.lo, |was| - 1, k);
    SpanOfMapped(b.ins, p.mid, group, Input, p.li, |was| - 1, k);
  }

  /** Inputs that are mapped from a bit on stand that far behind the start of the image. */
  lemma InputsThere(s: SlaveMap, area: WC.Span, g: View, b: Slaves, image: seq<bool>, r: seq<bool>)
    requires PointsTo(s, Input, area.a - 8 * g.logstart) && AllMapped(b.ins, area) && InParts(g, b)
    requires 8 * (g.obytes + g.ibytes) <= |image| && IsAfterCycle(g, b, image, r)
    ensures InputsAt(s, area, b, r)
  {
    forall bit | area.a <= bit < area.b
      ensures InputAt(s, area, b, r, bit)
    {
      assert Maps(b.ins, bit);
      MapsInside(b.ins, bit, 8 * (g.logstart + g.obytes), 8 * (g.logstart + g.obytes + g.ibytes));
      assert r[bit - 8 * g.logstart] == AfterCycle(g, b, image, bit - 8 * g.logstart);
    }
  }

  lemma OutputsThere(s: SlaveMap, area: WC.Span, g: View, b: Slaves, image: seq<bool>)
    requires PointsTo(s, Output, area.a - 8 * g.logstart) && AllMapped(b.outs, area) && InParts(g, b) && Tiled(g)
    requires InTable(g, false) && 8 * (g.obytes + g.ibytes) <= |image|
    ensures OutputsAt(s, area, g, false, b, image)
  {
    forall bit | area.a <= bit < area.b
      ensures OutputAt(s, area, g, false, b, image, bit)
    {
      assert Maps(b.outs, bit);
      OutputThere(s, area, g, b, image, bit);
    }
  }

  lemma OutputThere(s: SlaveMap, area: WC.Span, g: View, b: Slaves, image: seq<bool>, bit: int)
    requires PointsTo(s, Output, area.a - 8 * g.logstart) && Maps(b.outs, bit) && InParts(g, b) && Tiled(g)
    requires InTable(g, false) && 8 * (g.obytes + g.ibytes) <= |image|
    ensures OutputAt(s, area, g, false, b, image, bit)
  {
    forall was
      ensures 0 <= bit - 8 * g.logstart < |image|
              && BitWritten(g, false, b, image, bit, was) == image[bit - 8 * g.logstart]
    {
      OutputWritten(g, b, image, bit, was);
    }
  }

  /** What slave k finds and gets, if it takes part and had no pointer before. */
  ghost predicate Served(s: SlaveMap, r: SlaveMap, group: nat, ins: WC.Span, outs: WC.Span, g: View, overlap: bool,
                         b: Slaves, image: seq<bool>, image': seq<bool>)
    requires InTable(g, overlap) && 8 * (g.obytes + g.ibytes) <= |image|
  {
    && ((group == 0 || s.group == group) && s.ibits > 0 && s.inputs.None? ==> InputsAt(r, ins, b, image'))
    && ((group == 0 || s.group == group) && s.obits > 0 && s.outputs.None? ==>
          OutputsAt(r, outs, g, overlap, b, image))
  }

  /** Every slave of the group finds its inputs where its pointer leads, and gets the outputs that stand there. */
  ghost predicate AllServed(was: seq<SlaveMap>, now: seq<SlaveMap>, group: nat, p: Plan, g: View, b: Slaves,
                            image: seq<bool>, image': seq<bool>)
    requires |p.mid| == |was| == |now| == |p.lo.pts| == |p.li.pts|
    requires InTable(g, false) && 8 * (g.obytes + g.ibytes) <= |image|
  {
    forall k :: 1 <= k < |was| ==>
      Served(was[k], now[k], group, Area(was, group, p, Input, k), Area(was, group, p, Output, k), g, false, b, image,
             image')
  }

  lemma SlaveServed(was: seq<SlaveMap>, now: seq<SlaveMap>, group: nat, p: Plan, g: View, b: Slaves,
                    image: seq<bool>, r: seq<bool>, k: nat)
    requires IsPlan(was, now, group, g.logstart, g.logstart, p) && OnWire(was, group, p, b) && 1 <= k < |was|
    requires Tiled(g) && InParts(g, b) && InTable(g, false)
    requires 8 * (g.obytes + g.ibytes) <= |image| && IsAfterCycle(g, b, image, r)
    ensures Served(was[k], now[k], group, Area(was, group, p, Input, k), Area(was, group, p, Output, k), g, false, b,
                   image, r)
  {
    AreaMapped(was, group, p, b, k);
    if Takes(was[k], group, Input) && was[k].inputs.None? {
      PlanPoints(was, now, group, g.logstart, g.logstart, p, Input, k);
      InputsThere(now[k], Area(was, group, p, Input, k), g, b, image, r);
    }
    if Takes(was[k], group, Output) && was[k].outputs.None? {
      PlanPoints(was, now, group, g.logstart, g.logstart, p, Output, k);
      OutputsThere(now[k], Area(was, group, p, Output, k), g, b, image);
    }
  }

  /** So it is after a complete cycle over a mapped group, sent either way. */
  lemma CycleServes(was: seq<SlaveMap>, now: seq<SlaveMap>, group: nat, base: nat, p: Plan, g: View, b: Slaves,
                    image: seq<bool>, r: seq<bool>)
    requires IsView(was, now, group, base, p, g, b) && Tiled(g) && InParts(g, b) && InTable(g, false)
    requires base == g.logstart && 8 * (g.obytes + g.ibytes) <= |image| && IsAfterCycle(g, b, image, r)
    ensures |p.mid| == |was| == |now| == |p.lo.pts| == |p.li.pts| && AllServed(was, now, group, p, g, b, image, r)
  {
    ViewOnWire(was, now, group, base, p, g, b);
    forall k | 1 <= k < |was|
      ensures Served(was[k], now[k], group, Area(was, group, p, Input, k), Area(was, group, p, Output, k), g, false, b,
                     image, r)
    {
      SlaveServed(was, now, group, p, g, b, image, r, k);
    }
  }

  // ----- the overlapped map

  /** The bits slave k maps in one direction of an overlapped plan. */
  function HalfArea(p: OverlapPlan, d: Direction, k: nat): WC.Span
    requires 1 <= k < |p.o| && k < |p.i|
  {
    WC.Span(8 * Reach(p.o, p.i, k - 1), Side(d, p)[k].end)
  }

  lemma OverlapPoints(was: seq<SlaveMap>, group: nat, base: nat, p: OverlapPlan, n: nat, d: Direction, k: nat)
    requires Overlaid(was, p.mid, p.now, group, base, p.o, p.i, n) && 1 <= k <= n
    requires Takes(was[k], group, d) && Pointer(was[k], d).None?
    ensures PointsTo(p.now[k], d, HalfArea(p, d, k).a - 8 * base)
  {
    var m, from := p.mid[k], Reach(p.o, p.i, k - 1);
    assert OverlaidAt(was, p.mid, p.now, group, base, p.o, p.i, k);
    PointerSet(was[k], m, group, Output, base, 8 * from, p.o[k].end, p.o[k].ws);
    PointerSet(m, p.now[k], group, Input, base, 8 * from, p.i[k].end, p.i[k].ws);
  }

  /** Input pointers are moved behind the outputs, output pointers stay. */
  lemma ShiftMoves(s: SlaveMap, offset: nat, d: Direction, bit: int)
    requires PointsTo(s, d, bit)
    ensures PointsTo(Shifted(s, offset), d, if d.Input? then bit + 8 * offset else bit)
  {
  }

  lemma HalfHolds(s: SlaveMap, r: SlaveMap, group: nat, d: Direction, base: nat, from: nat, h: Half)
    requires HalfDone(s, r, group, d, base, from, h) && Takes(s, group, d) && Held(s, d)
    ensures h.end - 8 * from == (if Bits(s, d) < 8 then Bits(s, d) else 8 * Bytes(s, d)) >= Bits(s, d)
  {
  }

  lemma HalfAreaHolds(was: seq<SlaveMap>, group: nat, base: nat, p: OverlapPlan, n: nat, d: Direction, k: nat)
    requires Overlaid(was, p.mid, p.now, group, base, p.o, p.i, n) && 1 <= k <= n
    requires Takes(was[k], group, d) && Held(was[k], d)
    ensures var s := HalfArea(p, d, k);
      s.b - s.a == (if Bits(was[k], d) < 8 then Bits(was[k], d) else 8 * Bytes(was[k], d)) >= Bits(was[k], d)
  {
    var m, from := p.mid[k], Reach(p.o, p.i, k - 1);
    assert OverlaidAt(was, p.mid, p.now, group, base, p.o, p.i, k);
    PointerSet(was[k], m, group, Output, base, 8 * from, p.o[k].end, p.o[k].ws);
    if d.Output? {
      HalfHolds(was[k], m, group, Output, base, from, p.o[k]);
    } else {
      SameTotals(was[k], m, d, if |m.sms| < EC_MAXSM then 0 else EC_MAXSM - 1);
      HalfHolds(m, p.now[k], group, Input, base, from, p.i[k]);
    }
  }

  lemma HalfTight(was: seq<SlaveMap>, group: nat, base: nat, p: OverlapPlan, n: nat, d: Direction, k: nat)
    requires Overlaid(was, p.mid, p.now, group, base, p.o, p.i, n) && 1 <= k <= n
    requires (group == 0 || was[k].group == group) && Held(was[k], d)
    ensures Side(d, p)[k].to == Reach(p.o, p.i, k - 1) + (Bits(was[k], d) + 7) / 8
  {
    var m, from := p.mid[k], Reach(p.o, p.i, k - 1);
    assert OverlaidAt(was, p.mid, p.now, group, base, p.o, p.i, k);
    PointerSet(was[k], m, group, Output, base, 8 * from, p.o[k].end, p.o[k].ws);
    if Takes(was[k], group, d) { HalfAreaHolds(was, group, base, p, n, d, k); }
  }

  /** In an overlapped map a slave takes as many bytes as the larger of its directions, the next slave begins right
      behind it, and the first one at the start of the group. */
  lemma OverlapTight(was: seq<SlaveMap>, group: nat, base: nat, p: OverlapPlan, g: View, b: Slaves, k: nat)
    requires OverlapView(was, group, base, p, g, b) && 1 <= k < |was| == |p.o| == |p.i|
    requires (group == 0 || was[k].group == group) && Held(was[k], Output) && Held(was[k], Input)
    ensures Reach(p.o, p.i, k) == Reach(p.o, p.i, k - 1) + Max((was[k].obits + 7) / 8, (was[k].ibits + 7) / 8)
    ensures Reach(p.o, p.i, 0) == g.logstart && HalfArea(p, Output, k).a == HalfArea(p, Input, k).a
            == 8 * Reach(p.o, p.i, k - 1)
  {
    HalfTight(was, group, base, p, |was| - 1, Output, k);
    HalfTight(was, group, base, p, |was| - 1, Input, k);
  }

  lemma HalfAreasInOrder(was: seq<SlaveMap>, group: nat, base: nat, p: OverlapPlan, n: nat, d: Direction, j: nat,
                         k: nat)
    requires Overlaid(was, p.mid, p.now, group, base, p.o, p.i, n) && 1 <= j < k <= n
    ensures HalfArea(p, d, j).b <= HalfArea(p, d, k).a
  {
    HalfAt(was, group, base, p, n, d, j);
    ReachAscends(was, p.mid, p.now, group, base, p.o, p.i, n, j, k - 1);
  }

  lemma HalfAreasWithin(was: seq<SlaveMap>, group: nat, base: nat, p: OverlapPlan, n: nat, d: Direction, k: nat)
    requires Overlaid(was, p.mid, p.now, group, base, p.o, p.i, n) && 1 <= k <= n
    ensures 8 * Reach(p.o, p.i, 0) <= HalfArea(p, d, k).a && HalfArea(p, d, k).b <= 8 * Side(d, p)[n].to
  {
    HalfAt(was, group, base, p, n, d, k);
    HalfAt(was, group, base, p, n, d, n);
    ReachAscends(was, p.mid, p.now, group, base, p.o, p.i, n, 0, k - 1);
    if k < n { ReachAscends(was, p.mid, p.now, group, base, p.o, p.i, n, k, n - 1); }
  }

  /** In an overlapped map too there is room behind each pointer for all bits of its slave: inputs come behind all
      outputs, where the pointers are shifted to. */
  lemma OverlapPointersApart(was: seq<SlaveMap>, now: seq<SlaveMap>, group: nat, base: nat, p: OverlapPlan, g: View,
                             b: Slaves, d: Direction, j: nat, e: Direction, k: nat)
    requires OverlapView(was, group, base, p, g, b) && 1 <= j < |was| && 1 <= k < |was| == |now| == |p.now|
    requires now[j] == Shifted(p.now[j], g.obytes) && now[k] == Shifted(p.now[k], g.obytes)
    requires Takes(was[j], group, d) && Takes(was[k], group, e) && ((d.Output? && e.Input?) || (d == e && j < k))
    requires Pointer(was[j], d).None? && Pointer(was[k], e).None?
    requires Held(was[j], d)
    ensures Pointer(now[j], d).Some? && Pointer(now[k], e).Some?
    ensures 8 * Pointer(now[j], d).value + StartOf(now[j], d) + Bits(was[j], d)
            <= 8 * Pointer(now[k], e).value + StartOf(now[k], e)
  {
    var n := |was| - 1;
    OverlapPoints(was, group, base, p, n, d, j);
    OverlapPoints(was, group, base, p, n, e, k);
    ShiftMoves(p.now[j], g.obytes, d, HalfArea(p, d, j).a - 8 * base);
    ShiftMoves(p.now[k], g.obytes, e, HalfArea(p, e, k).a - 8 * base);
    HalfAreaHolds(was, group, base, p, n, d, j);
    if d == e {
      HalfAreasInOrder(was, group, base, p, n, d, j, k);
    } else {
      HalfAreasWithin(was, group, base, p, n, d, j);
      HalfAreasWithin(was, group, base, p, n, e, k);
    }
  }

  /** Each slave of an overlapped map finds its inputs and gets its outputs through its pointers. */
  ghost predicate OverlapServed(was: seq<SlaveMap>, now: seq<SlaveMap>, group: nat, p: OverlapPlan, g: View, b: Slaves,
                                image: seq<bool>, image': seq<bool>)
    requires |now| == |was| <= |p.o| && |was| <= |p.i|
    requires InTable(g, true) && 8 * (g.obytes + g.ibytes) <= |image|
  {
    forall k :: 1 <= k < |was| ==>
      Served(was[k], now[k], group, HalfArea(p, Input, k), HalfArea(p, Output, k), g, true, b, image, image')
  }

  lemma HalfMapped(o: seq<Half>, i: seq<Half>, h: seq<Half>, n: nat, k: nat)
    requires 1 <= k <= n && n < |o| && n < |i| && n < |h|
    ensures AllMapped(HalfSpans(o, i, h, n), WC.Span(8 * Reach(o, i, k - 1), h[k].end))
  {
    HalfSpansAt(o, i, h, n, k - 1);
    SpanMapped(HalfSpans(o, i, h, n), k - 1);
  }

  lemma ShiftedInputsThere(s: SlaveMap, area: WC.Span, g: View, b: Slaves, r: seq<bool>)
    requires PointsTo(s, Input, area.a - 8 * g.logstart + 8 * g.obytes) && AllMapped(b.ins, area)
    requires InputsArrive(g, b, r)
    ensures InputsAt(s, area, b, r)
  {
    forall bit | area.a <= bit < area.b
      ensures InputAt(s, area, b, r, bit)
    {
      assert Maps(b.ins, bit);
    }
  }

  lemma OverlapOutputsThere(s: SlaveMap, area: WC.Span, g: View, b: Slaves, image: seq<bool>)
    requires InTable(g, true) && 8 * (g.obytes + g.ibytes) <= |image|
    requires PointsTo(s, Output, area.a - 8 * g.logstart) && AllMapped(b.outs, area) && OutputsArrive(g, b, image)
    ensures OutputsAt(s, area, g, true, b, image)
  {
    forall bit | area.a <= bit < area.b
      ensures OutputAt(s, area, g, true, b, image, bit)
    {
      assert Maps(b.outs, bit);
      OverlapOutputThere(s, area, g, b, image, bit);
    }
  }

  lemma OverlapOutputThere(s: SlaveMap, area: WC.Span, g: View, b: Slaves, image: seq<bool>, bit: int)
    requires InTable(g, true) && 8 * (g.obytes + g.ibytes) <= |image|
    requires PointsTo(s, Output, area.a - 8 * g.logstart) && Maps(b.outs, bit) && OutputsArrive(g, b, image)
    ensures OutputAt(s, area, g, true, b, image, bit)
  {
    var w := BitWritten(g, true, b, image, bit, false);
    assert 0 <= bit - 8 * g.logstart < |image| && w == image[bit - 8 * g.logstart];
  }

  /** After a complete LRW cycle over an overlapped map every slave of the group finds its inputs where its shifted
      pointer leads, and gets the outputs that stand behind the other. */
  lemma OverlapCycleServes(was: seq<SlaveMap>, now: seq<SlaveMap>, group: nat, base: nat, p: OverlapPlan, g: View,
                           b: Slaves, first: nat, image: seq<bool>, rx: map<nat, Reply>, st: State)
    requires OverlapView(was, group, base, p, g, b) && Fits(OverlapDiffs(was, group, p.o, p.i, |was| - 1))
    requires |now| == |was| == |p.now| && forall k :: 1 <= k < |was| ==> now[k] == Shifted(p.now[k], g.obytes)
    requires InTable(g, true) && g.blockLRW == 0 && base == g.logstart && st.image == image
    requires 8 * (g.obytes + Length(g, true)) <= |image| && CycleAnswered(g, true, b, first, image, rx, true)
    ensures |was| == |p.o| == |p.i|
            && OverlapServed(was, now, group, p, g, b, image, ImageAfter(g, true, first, rx, st))
  {
    var n, r := |was| - 1, ImageAfter(g, true, first, rx, st);
    OverlapRoundTrip(was, group, base, p, g, b, first, image, rx, st);
    forall k | 1 <= k < |was|
      ensures Served(was[k], now[k], group, HalfArea(p, Input, k), HalfArea(p, Output, k), g, true, b, image, r)
    {
      OneServed(was, now, group, base, p, g, b, image, r, k);
    }
  }

  lemma OneServed(was: seq<SlaveMap>, now: seq<SlaveMap>, group: nat, base: nat, p: OverlapPlan, g: View, b: Slaves,
                  image: seq<bool>, r: seq<bool>, k: nat)
    requires OverlapView(was, group, base, p, g, b) && 1 <= k < |was| == |now| == |p.now|
    requires now[k] == Shifted(p.now[k], g.obytes) && base == g.logstart
    requires InTable(g, true) && 8 * (g.obytes + g.ibytes) <= |image|
    requires InputsArrive(g, b, r) && OutputsArrive(g, b, image)
    ensures Served(was[k], now[k], group, HalfArea(p, Input, k), HalfArea(p, Output, k), g, true, b, image, r)
  {
    var n, ins, outs := |was| - 1, HalfArea(p, Input, k), HalfArea(p, Output, k);
    HalfMapped(p.o, p.i, p.i, n, k);
    HalfMapped(p.o, p.i, p.o, n, k);
    if Takes(was[k], group, Input) && was[k].inputs.None? {
      OverlapPoints(was, group, base, p, n, Input, k);
      ShiftMoves(p.now[k], g.obytes, Input, ins.a - 8 * base);
      ShiftedInputsThere(now[k], ins, g, b, r);
    }
    if Takes(was[k], group, Output) && was[k].outputs.None? {
      OverlapPoints(was, group, base, p, n, Output, k);
      ShiftMoves(p.now[k], g.obytes, Output, outs.a - 8 * base);
      OverlapOutputsThere(now[k], outs, g, b, image);
    }
  }
}
