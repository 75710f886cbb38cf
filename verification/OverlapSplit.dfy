/** The overlapped map cycled with LRD and LWR. The read starts behind the outputs in the logical range,
    where an overlapped map has nothing or the inputs of other slaves: when inputs arrive nevertheless, and
    when the work counter reaches the expected one. */
module OverlapSplit {
  import opened Basics
  import opened Segments
  import opened FmmuMapping
  import opened IoMap
  import WC = WorkCounter
  import opened ProcessData
  import opened CycleProofs
  import opened CycleImages
  import opened OverlapCycle

  // ----- inputs

  lemma NoneExpected(spans: seq<WC.Span>, bit: int)
    requires WC.Expected(spans) == 0
    ensures !Maps(spans, bit)
  {
    if Maps(spans, bit) { ExpectedMapped(spans, bit); }
  }

  lemma {:induction false} ExpectedMapped(spans: seq<WC.Span>, bit: int)
    requires Maps(spans, bit)
    ensures WC.Expected(spans) > 0
  {
    if !WC.NonEmpty(spans[0]) {
      var k :| 0 <= k < |spans| && spans[k].a <= bit < spans[k].b;
      assert spans[1..][k - 1] == spans[k];
      ExpectedMapped(spans[1..], bit);
    }
  }

  lemma {:induction false} MappedExpected(spans: seq<WC.Span>) returns (bit: int)
    requires WC.Expected(spans) > 0
    ensures Maps(spans, bit)
  {
    if WC.NonEmpty(spans[0]) {
      bit := spans[0].a;
    } else {
      bit := MappedExpected(spans[1..]);
      var k :| 0 <= k < |spans[1..]| && spans[1..][k].a <= bit < spans[1..][k].b;
      assert spans[k + 1] == spans[1..][k];
    }
  }

  /** The highest bit that is mapped. */
  lemma {:induction false} HighestMapped(spans: seq<WC.Span>, bit: int, hi: int) returns (top: int)
    requires Maps(spans, bit) && forall x {:trigger Maps(spans, x)} :: Maps(spans, x) ==> x < hi
    ensures Maps(spans, top) && forall x {:trigger Maps(spans, x)} :: x > top ==> !Maps(spans, x)
    decreases hi - bit
  {
    if Maps(spans, hi - 1) {
      top := hi - 1;
    } else {
      top := HighestMapped(spans, bit, hi - 1);
    }
  }

  /** Without outputs, or without inputs, the read is right. */
  lemma SplitArrives(g: View, b: Slaves, image: seq<bool>, r: seq<bool>)
    requires IsAfterOverlapSplit(g, b, image, r) && 8 * (g.obytes + Length(g, true)) <= |image|
    requires WC.AllInside(b.ins, 8 * g.logstart, 8 * (g.logstart + g.ibytes))
    requires g.obytes == 0 || WC.Expected(b.ins) == 0
    ensures InputsArrive(g, b, r)
  {
    forall bit {:trigger Maps(b.ins, bit)} | Maps(b.ins, bit)
      ensures 0 <= bit - 8 * g.logstart + 8 * g.obytes < |r| && r[bit - 8 * g.logstart + 8 * g.obytes] == b.level(bit)
    {
      if WC.Expected(b.ins) == 0 { NoneExpected(b.ins, bit); }
      MapsInside(b.ins, bit, 8 * g.logstart, 8 * (g.logstart + g.ibytes));
      assert r[bit - 8 * g.logstart] == AfterOverlapSplit(g, b, image, bit - 8 * g.logstart);
    }
  }

  /** With outputs, the highest input bit comes back clear although it is set. */
  lemma SplitMisses(g: View, b: Slaves, image: seq<bool>, r: seq<bool>)
    requires IsAfterOverlapSplit(g, b, image, r) && 8 * (g.obytes + Length(g, true)) <= |image|
    requires WC.AllInside(b.ins, 8 * g.logstart, 8 * (g.logstart + g.ibytes))
    requires g.obytes > 0 && WC.Expected(b.ins) > 0 && forall bit :: b.level(bit)
    ensures !InputsArrive(g, b, r)
  {
    var lo, hi := 8 * g.logstart, 8 * (g.logstart + g.ibytes);
    forall x {:trigger Maps(b.ins, x)} | Maps(b.ins, x)
      ensures x < hi
    {
      MapsInside(b.ins, x, lo, hi);
    }
    var bit := MappedExpected(b.ins);
    var top := HighestMapped(b.ins, bit, hi);
    MapsInside(b.ins, top, lo, hi);
    var j := top - lo + 8 * g.obytes;
    assert !Maps(b.ins, lo + j);
    assert r[j] == AfterOverlapSplit(g, b, image, j);
  }

  /** Whatever the inputs are at: when every frame of the cycle came back, each mapped input bit stands as
      far behind the outputs as in the logical range. */
  ghost predicate AlwaysArrive(g: View, b: Slaves, first: nat, image: seq<bool>, st: State)
    requires InTable(g, true) && 8 * (g.obytes + g.ibytes) <= |image|
  {
    forall level: int -> bool, rx: map<nat, Reply>
      {:trigger CycleAnswered(g, true, b.(level := level), first, image, rx, true)} ::
      CycleAnswered(g, true, b.(level := level), first, image, rx, true) ==>
      InputsArrive(g, b.(level := level), ImageAfter(g, true, first, rx, st))
  }

  /** The round trip of an overlapped map over LRD and LWR: the outputs stay and reach the slaves, and the
      inputs arrive whatever they are at, if and only if there are no outputs or no slave has inputs. */
  lemma SplitRoundTripIff(was: seq<SlaveMap>, group: nat, base: nat, p: OverlapPlan, g: View, b: Slaves, first: nat,
                          image: seq<bool>, st: State)
    requires OverlapView(was, group, base, p, g, b) && Fits(OverlapDiffs(was, group, p.o, p.i, |was| - 1))
    requires InTable(g, true) && g.blockLRW > 0 && |Cycle(g, true)| <= EC_MAXBUF
    requires st.image == image && 8 * (g.obytes + Length(g, true)) <= |image|
    ensures AlwaysArrive(g, b, first, image, st) <==> g.obytes == 0 || AddingHalves(p.i, |was| - 1) == 0
    ensures OutputsArrive(g, b, image)
    ensures forall rx :: CycleAnswered(g, true, b, first, image, rx, true) ==>
            OutputsStay(g, image, ImageAfter(g, true, first, rx, st))
  {
    assert OverlapTiled(g) by { OverlapViewTiled(was, group, base, p, g, b); }
    assert WC.AllInside(b.ins, 8 * g.logstart, 8 * (g.logstart + g.ibytes))
           && WC.AllInside(b.outs, 8 * g.logstart, 8 * (g.logstart + g.obytes)) by {
      OverlapSpans(was, group, base, p, g, b);
    }
    assert WC.Expected(b.ins) == AddingHalves(p.i, |was| - 1) by {
      ExpectedIsAddingHalves(was, group, base, p, |was| - 1, Input, |was| - 1);
    }
    ArriveIff(g, b, first, image, st);
    ArrivedOutputs(g, b, image);
    forall rx | CycleAnswered(g, true, b, first, image, rx, true)
      ensures OutputsStay(g, image, ImageAfter(g, true, first, rx, st))
    {
      SplitKeepsOutputs(g, b, first, image, rx, st);
    }
  }

  lemma SplitKeepsOutputs(g: View, b: Slaves, first: nat, image: seq<bool>, rx: map<nat, Reply>, st: State)
    requires OverlapTiled(g) && g.blockLRW > 0 && st.image == image && 8 * (g.obytes + Length(g, true)) <= |image|
    requires CycleAnswered(g, true, b, first, image, rx, true)
    ensures OutputsStay(g, image, ImageAfter(g, true, first, rx, st))
  {
    OverlapSplitImage(g, b, first, image, rx, st);
    var r := ImageAfter(g, true, first, rx, st);
    assert forall j :: 0 <= j < 8 * g.obytes ==> r[j] == AfterOverlapSplit(g, b, image, j);
  }

  /** For any view and any slaves with their inputs in the range. */
  lemma ArriveIff(g: View, b: Slaves, first: nat, image: seq<bool>, st: State)
    requires OverlapTiled(g) && InTable(g, true) && g.blockLRW > 0 && |Cycle(g, true)| <= EC_MAXBUF
    requires WC.AllInside(b.ins, 8 * g.logstart, 8 * (g.logstart + g.ibytes))
    requires st.image == image && 8 * (g.obytes + Length(g, true)) <= |image|
    ensures AlwaysArrive(g, b, first, image, st) <==> g.obytes == 0 || WC.Expected(b.ins) == 0
  {
    if g.obytes == 0 || WC.Expected(b.ins) == 0 {
      forall level: int -> bool, rx: map<nat, Reply>
        | CycleAnswered(g, true, b.(level := level), first, image, rx, true)
        ensures InputsArrive(g, b.(level := level), ImageAfter(g, true, first, rx, st))
      {
        OverlapSplitImage(g, b.(level := level), first, image, rx, st);
        SplitArrives(g, b.(level := level), image, ImageAfter(g, true, first, rx, st));
      }
    } else {
      var level: int -> bool := _ => true;
      var rx := Complete(g, true, b.(level := level), first, image);
      OverlapSplitImage(g, b.(level := level), first, image, rx, st);
      SplitMisses(g, b.(level := level), image, ImageAfter(g, true, first, rx, st));
    }
  }

  /** An overlapped byte of outputs and of inputs, cycled with LRD and LWR. */
  predicate OneByteEach(g: View) {
    && g.obytes == g.ibytes == g.inputs == 1 && g.segs == [1]
    && g.isegment == g.ioffset == 0 && g.blockLRW == 1
  }

  lemma OneByteTiled(g: View)
    requires OneByteEach(g)
    ensures OverlapTiled(g) && InTable(g, true) && |Cycle(g, true)| == 2
  {
    assert Sum(g.segs) == 1 + Sum(g.segs[1..]) && g.segs[1..] == [] && g.segs[0..] == g.segs;
  }

  /** One slave that maps both, with its inputs set: a complete cycle leaves them where they do not arrive. */
  lemma OneSlaveMisread(g: View, b: Slaves, st: State) returns (rx: map<nat, Reply>)
    requires OneByteEach(g) && b.outs == b.ins == [WC.Span(8 * g.logstart, 8 * g.logstart + 8)]
    requires |st.image| == 16 && forall bit :: b.level(bit)
    ensures InTable(g, true) && CycleAnswered(g, true, b, 0, st.image, rx, true)
    ensures !InputsArrive(g, b, ImageAfter(g, true, 0, rx, st))
  {
    OneByteTiled(g);
    rx := Complete(g, true, b, 0, st.image);
    OverlapSplitImage(g, b, 0, st.image, rx, st);
    SplitMisses(g, b, st.image, ImageAfter(g, true, 0, rx, st));
  }

  // ----- the work counter

  /** Answers to the reads of an overlapped cycle. */
  function ReadHits(g: View, b: Slaves): nat
    requires Usable(g)
  {
    if g.ibytes > 0 then WC.TotalHits(b.ins, g.logstart + g.obytes, ReadLens(g)) else 0
  }

  lemma OverlapWritesWorth(g: View, b: Slaves, dc: bool, ds: seq<Logical>)
    requires OverlapTiled(g) && ds == Writes(g, dc)
    requires WC.AllInside(b.outs, 8 * g.logstart, 8 * (g.logstart + g.obytes))
             && WC.NoneSplit(b.outs, g.logstart, g.segs)
    ensures TotalWorth(b, ds) == 2 * WC.Expected(b.outs) && ClockFirst(ds) && (!dc ==> NoClock(ds))
  {
    if g.obytes > 0 {
      var lens := Lens(g.segs, 0, true, g.obytes);
      assert Sum(lens) == g.obytes by { ClippedTile(g.segs, g.obytes); }
      ClippedKeep(b.outs, g.segs, g.obytes, g.logstart);
      ChainCounts(b, LWR, g.logstart, 0, 0, lens, dc, ds, g.obytes);
    } else {
      NothingExpected(b.outs, 8 * g.logstart);
    }
  }

  lemma ClippedKeep(spans: seq<WC.Span>, segs: seq<nat>, length: nat, from: nat)
    requires segs != [] && Sum(segs) >= length && WC.NoneSplit(spans, from, segs)
    requires WC.AllInside(spans, 8 * from, 8 * (from + length))
    ensures WC.NoneSplit(spans, from, Lens(segs, 0, true, length))
  {
    forall k | 0 <= k < |spans| && WC.NonEmpty(spans[k])
      ensures WC.Unsplit(spans[k], from, Lens(segs, 0, true, length))
    {
      LensKeepUnsplit(spans[k], segs, 0, true, length, from);
    }
  }

  lemma OverlapReadsWorth(g: View, b: Slaves, ds: seq<Logical>)
    requires Usable(g) && ds == Reads(g)
    ensures TotalWorth(b, ds) == ReadHits(g, b) && ClockFirst(ds)
  {
    if g.ibytes > 0 { ChainWorth(b, LRD, g.logstart + g.obytes, g.inputs, g.inputs, ReadLens(g), g.hasdc); }
  }

  /** A cycle is worth twice the outputs and the answers to the misplaced reads. */
  lemma OverlapSplitWorth(g: View, b: Slaves)
    requires OverlapTiled(g) && g.blockLRW > 0
    requires WC.AllInside(b.outs, 8 * g.logstart, 8 * (g.logstart + g.obytes))
             && WC.NoneSplit(b.outs, g.logstart, g.segs)
    ensures TotalWorth(b, Cycle(g, true)) == 2 * WC.Expected(b.outs) + ReadHits(g, b) && ClockFirst(Cycle(g, true))
  {
    if Length(g, true) == 0 {
      NothingExpected(b.outs, 8 * g.logstart);
    } else {
      var x: seq<Logical> := Reads(g);
      var dc := g.hasdc && x == [];
      var y: seq<Logical> := Writes(g, dc);
      OverlapWritesWorth(g, b, dc, y);
      OverlapReadsWorth(g, b, x);
      WorthAppend(b, x, y);
      ClockAppend(x, y);
    }
  }

  lemma {:induction false} BehindUnheard(spans: seq<WC.Span>, lo: int, from: nat, lens: seq<nat>)
    requires WC.AllInside(spans, lo, 8 * from)
    ensures WC.TotalHits(spans, from, lens) == 0
  {
    if spans == [] {
      WC.TotalOfNone(from, lens);
    } else {
      assert forall k :: 0 <= k < |spans[1..]| ==> spans[1..][k] == spans[k + 1];
      BehindUnheard(spans[1..], lo, from, lens);
      WC.TotalByHead(spans, from, lens);
      if WC.NonEmpty(spans[0]) {
        WC.BehindUntouched(spans[0], from, lens);
      } else {
        WC.EmptyUntouched(spans[0], from, lens);
      }
    }
  }

  /** Every slave with something mapped has some of it behind bit `at`. */
  predicate AllReachBehind(spans: seq<WC.Span>, at: int) {
    forall k :: 0 <= k < |spans| && WC.NonEmpty(spans[k]) ==> at < spans[k].b
  }

  lemma OneHeard(s: WC.Span, from: nat, lens: seq<nat>)
    requires WC.NonEmpty(s) ==> s.b <= 8 * (from + Sum(lens))
    ensures WC.NonEmpty(s) && 8 * from < s.b ==> WC.Touches(s, from, lens) >= 1
    ensures |lens| == 1 ==> WC.Touches(s, from, lens) == Bit(WC.NonEmpty(s) && 8 * from < s.b)
  {
    if WC.NonEmpty(s) && 8 * from < s.b { WC.TouchedOnce(s, from, lens); }
    if |lens| == 1 {
      assert Sum(lens) == lens[0] + Sum(lens[1..]) == lens[0];
      assert WC.Touches(s, from, lens) == Bit(WC.Reaches(s, 8 * from, 8 * (from + lens[0])));
    }
  }

  /** Reads over bytes from `from` on are answered enough if every slave reaches there; a single one only then. */
  lemma {:induction false} HeardFrom(spans: seq<WC.Span>, lo: int, from: nat, lens: seq<nat>)
    requires WC.AllInside(spans, lo, 8 * (from + Sum(lens)))
    ensures AllReachBehind(spans, 8 * from) ==> WC.TotalHits(spans, from, lens) >= WC.Expected(spans)
    ensures |lens| == 1 ==> WC.TotalHits(spans, from, lens) <= WC.Expected(spans)
    ensures |lens| == 1 ==> (WC.TotalHits(spans, from, lens) == WC.Expected(spans) <==> AllReachBehind(spans, 8 * from))
  {
    if spans == [] {
      WC.TotalOfNone(from, lens);
    } else {
      var s, rest := spans[0], spans[1..];
      assert forall k :: 0 <= k < |rest| ==> rest[k] == spans[k + 1];
      HeardFrom(rest, lo, from, lens);
      WC.TotalByHead(spans, from, lens);
      OneHeard(s, from, lens);
      assert AllReachBehind(spans, 8 * from) <==>
             (WC.NonEmpty(s) ==> 8 * from < s.b) && AllReachBehind(rest, 8 * from) by {
        assert forall k :: 1 <= k < |spans| ==> spans[k] == rest[k - 1];
      }
    }
  }

  lemma ReadsFrom(g: View, b: Slaves)
    requires OverlapTiled(g) && WC.AllInside(b.ins, 8 * g.logstart, 8 * (g.logstart + g.ibytes))
    ensures AllReachBehind(b.ins, 8 * (g.logstart + g.obytes)) ==> ReadHits(g, b) >= WC.Expected(b.ins)
    ensures |ReadLens(g)| == 1 ==>
      (ReadHits(g, b) >= WC.Expected(b.ins) <==> AllReachBehind(b.ins, 8 * (g.logstart + g.obytes)))
  {
    if g.ibytes == 0 {
      NothingExpected(b.ins, 8 * g.logstart);
    } else {
      assert g.segs[0..] == g.segs;
      LensStop(g.segs, g.ibytes);
      HeardFrom(b.ins, 8 * g.logstart, g.logstart + g.obytes, ReadLens(g));
    }
  }

  /** The reads are answered as expected without outputs; nobody answers them with no more inputs than outputs. */
  lemma ReadsHeard(g: View, b: Slaves)
    requires OverlapTiled(g)
    requires WC.AllInside(b.ins, 8 * g.logstart, 8 * (g.logstart + g.ibytes)) && WC.NoneSplit(b.ins, g.logstart, g.segs)
    ensures g.obytes == 0 ==> ReadHits(g, b) == WC.Expected(b.ins)
    ensures g.ibytes <= g.obytes ==> ReadHits(g, b) == 0
  {
    if g.ibytes == 0 {
      NothingExpected(b.ins, 8 * g.logstart);
    } else if g.obytes == 0 {
      assert g.segs[0..] == g.segs;
      assert Sum(ReadLens(g)) == g.ibytes by { LensTile(g.segs, 0, g.ibytes); }
      KeptByLens(b.ins, g.segs, g.ibytes, g.logstart);
      WC.CountsAreExact(b.ins, g.logstart, ReadLens(g));
    } else if g.ibytes <= g.obytes {
      BehindUnheard(b.ins, 8 * g.logstart, g.logstart + g.obytes, ReadLens(g));
    }
  }

  /** With every frame of the cycle back, the total is 2 * outputsWKC and the answers to the reads. It is the
      expected one without outputs, and it reaches that if the inputs of every slave that has some end behind
      the byte at which the reads start; if the reads are one datagram, then only. With no more inputs than
      outputs it is too low for ever if a slave has inputs. */
  lemma OverlapSplitTotal(was: seq<SlaveMap>, group: nat, base: nat, p: OverlapPlan, g: View, b: Slaves, first: nat,
                          image: seq<bool>, rx: map<nat, Reply>, st: State)
    requires OverlapView(was, group, base, p, g, b) && Fits(OverlapDiffs(was, group, p.o, p.i, |was| - 1))
    requires InTable(g, true) && g.blockLRW > 0 && 8 * (g.obytes + g.ibytes) <= |image| && st.wkc == 0
    requires CycleAnswered(g, true, b, first, image, rx, true)
    ensures var wkc := ReceiveAll(st, Entries(Cycle(g, true), first), rx).wkc;
      var outputsWKC, inputsWKC := AddingHalves(p.o, |was| - 1), AddingHalves(p.i, |was| - 1);
      && wkc == 2 * outputsWKC + ReadHits(g, b)
      && (g.obytes == 0 ==> wkc == 2 * outputsWKC + inputsWKC)
      && (AllReachBehind(b.ins, 8 * (g.logstart + g.obytes)) ==> wkc >= 2 * outputsWKC + inputsWKC)
      && (|ReadLens(g)| == 1 ==>
          (wkc >= 2 * outputsWKC + inputsWKC <==> AllReachBehind(b.ins, 8 * (g.logstart + g.obytes))))
      && (g.ibytes <= g.obytes ==> (wkc < 2 * outputsWKC + inputsWKC <==> inputsWKC > 0))
  {
    var n := |was| - 1;
    OverlapViewTiled(was, group, base, p, g, b);
    OverlapSpans(was, group, base, p, g, b);
    ExpectedIsAddingHalves(was, group, base, p, n, Output, n);
    ExpectedIsAddingHalves(was, group, base, p, n, Input, n);
    OverlapSplitWorth(g, b);
    ReadsHeard(g, b);
    ReadsFrom(g, b);
    CycleFromImage(g, true, |image|);
    AllReceived(b, Cycle(g, true), first, image, rx, st);
  }
}
