/** What a cycle leaves in the process image when some of its frames, or all, did not come back. */
module LossyCycle {
  import opened Basics
  import opened Segments
  import opened ProcessData
  import opened CycleProofs
  import opened CycleImages

  /** The reply to one of the datagrams came back, and is stored over bit j. */
  ghost predicate Fresh(ds: seq<Logical>, first: nat, rx: map<nat, Reply>, j: nat)
    decreases ds
  {
    ds != []
    && ((first % EC_MAXBUF in rx && ds[0].cmd != LWR && 8 * ds[0].store <= j < 8 * (ds[0].store + ds[0].len))
        || Fresh(ds[1..], first + 1, rx, j))
  }

  /** The memory `r` has what one reply to d would leave in the bits whose reply came back, and the others are as
      they were. */
  ghost predicate IsPartly(b: Slaves, d: Logical, ds: seq<Logical>, first: nat, rx: map<nat, Reply>, sent: seq<bool>,
                           was: seq<bool>, r: seq<bool>)
  {
    |r| == |was| && forall j {:trigger r[j]} :: 0 <= j < |r| ==>
      r[j] == if Fresh(ds, first, rx, j) then Refreshed(b, d, sent, was, j) else was[j]
  }

  /** The replies to the pieces of d are stored where the reply to d would be. */
  lemma {:induction false} FreshInside(ds: seq<Logical>, d: Logical, lens: seq<nat>, first: nat, rx: map<nat, Reply>,
                                       j: nat)
    requires Cuts(ds, d, lens) && Fresh(ds, first, rx, j)
    ensures d.cmd != LWR && 8 * d.store <= j < 8 * (d.store + d.len)
    decreases |lens|
  {
    CutsFirst(ds, d, lens);
    if Fresh(ds[1..], first + 1, rx, j) { FreshInside(ds[1..], Behind(d, lens[0]), lens[1..], first + 1, rx, j); }
  }

  /** The first reply, if it came, and what it leaves for the others. */
  lemma FirstIfAny(b: Slaves, ds: seq<Logical>, first: nat, sent: seq<bool>, rx: map<nat, Reply>, st: State)
    returns (mid: State)
    requires ds != [] && AllInImage(ds, |sent|) && Answered(b, ds, first, sent, rx, false)
    requires Fitting(ds[0], |sent|) && |st.image| == |sent|
    ensures AllInImage(ds[1..], |sent|) && Answered(b, ds[1..], first + 1, sent, rx, false)
    ensures if first % EC_MAXBUF in rx then IsRefreshed(b, ds[0], sent, st.image, mid.image) else mid == st
    ensures ReceiveAll(st, Entries(ds, first), rx) == ReceiveAll(mid, Entries(ds[1..], first + 1), rx)
  {
    InImageTail(ds, |sent|);
    mid := Receive(st, Entry(first % EC_MAXBUF, ds[0].store, ds[0].len, DcOffset(ds[0])), rx);
    if first % EC_MAXBUF in rx { ReplyImage(b, ds[0], first, sent, rx, st); }
    var es := Entries(ds, first);
    assert es[0] == Entry(first % EC_MAXBUF, ds[0].store, ds[0].len, DcOffset(ds[0]))
           && es[1..] == Entries(ds[1..], first + 1);
  }

  /** One bit, over the first piece and the others. */
  lemma PartlyBit(b: Slaves, d: Logical, n: nat, sent: seq<bool>, was: seq<bool>, mid: seq<bool>, j: nat)
    requires n <= d.len && j < |was| == |mid| && d.cmd != LWR
    ensures 8 * d.store <= j < 8 * (d.store + n) ==>
            Refreshed(b, d.(len := n), sent, was, j) == Refreshed(b, d, sent, was, j)
    ensures 8 * (d.store + n) <= j < 8 * (d.store + d.len) ==>
            Refreshed(b, Behind(d, n), sent, mid, j) == Refreshed(b, d, sent, was, j)
  {
    assert 8 * (d.addr + n) + j - 8 * (d.store + n) == 8 * d.addr + j - 8 * d.store;
    assert 8 * (d.off + n) + j - 8 * (d.store + n) == 8 * d.off + j - 8 * d.store;
  }

  lemma PartlyStep(b: Slaves, d: Logical, lens: seq<nat>, ds: seq<Logical>, first: nat, rx: map<nat, Reply>,
                   sent: seq<bool>, was: seq<bool>, mid: seq<bool>, r: seq<bool>)
    requires Cuts(ds, d, lens) && lens != [] && lens[0] <= d.len && |mid| == |was|
    requires if first % EC_MAXBUF in rx then IsRefreshed(b, d.(len := lens[0]), sent, was, mid) else mid == was
    requires IsPartly(b, Behind(d, lens[0]), ds[1..], first + 1, rx, sent, mid, r)
    ensures IsPartly(b, d, ds, first, rx, sent, was, r)
  {
    var n := lens[0];
    CutsFirst(ds, d, lens);
    forall j {:trigger r[j]} | 0 <= j < |r|
      ensures r[j] == if Fresh(ds, first, rx, j) then Refreshed(b, d, sent, was, j) else was[j]
    {
      var m := mid[j];
      if Fresh(ds[1..], first + 1, rx, j) { FreshInside(ds[1..], Behind(d, n), lens[1..], first + 1, rx, j); }
      if d.cmd != LWR { PartlyBit(b, d, n, sent, was, mid, j); }
    }
  }

  /** Whatever came back of the replies to a chain. */
  lemma {:induction false} LossyChain(b: Slaves, d: Logical, lens: seq<nat>, ds: seq<Logical>, first: nat,
                                      sent: seq<bool>, rx: map<nat, Reply>, st: State, r: seq<bool>)
    requires Cuts(ds, d, lens) && Fitting(d, |sent|) && |st.image| == |sent|
    requires AllInImage(ds, |sent|) && Answered(b, ds, first, sent, rx, false)
    requires r == ReceiveAll(st, Entries(ds, first), rx).image
    ensures IsPartly(b, d, ds, first, rx, sent, st.image, r)
    decreases |lens|
  {
    if lens == [] {
      NoReplies(ds, first, rx, st);
    } else {
      CutsFirst(ds, d, lens);
      var mid := FirstIfAny(b, ds, first, sent, rx, st);
      LossyChain(b, Behind(d, lens[0]), lens[1..], ds[1..], first + 1, sent, rx, mid, r);
      PartlyStep(b, d, lens, ds, first, rx, sent, st.image, mid.image, r);
    }
  }

  // ----- cycles

  lemma {:induction false} FreshAppend(x: seq<Logical>, y: seq<Logical>, first: nat, rx: map<nat, Reply>, j: nat)
    ensures Fresh(x + y, first, rx, j) <==> Fresh(x, first, rx, j) || Fresh(y, first + |x|, rx, j)
    decreases x
  {
    if x == [] {
      assert x + y == y;
    } else {
      assert (x + y)[1..] == x[1..] + y && (x + y)[0] == x[0];
      FreshAppend(x[1..], y, first + 1, rx, j);
    }
  }

  /** Bit j after the cycle: that of a complete one if a reply was stored over it, else as before. */
  ghost predicate IsAfterLoss(g: View, b: Slaves, first: nat, rx: map<nat, Reply>, image: seq<bool>, r: seq<bool>)
    requires Usable(g)
  {
    |r| == |image| && forall j {:trigger r[j]} :: 0 <= j < |r| ==>
      r[j] == if Fresh(Cycle(g, false), first, rx, j) then AfterCycle(g, b, image, j) else image[j]
  }

  /** What one datagram for the whole cycle would refresh is what a complete cycle leaves. */
  lemma RefreshedAfter(g: View, b: Slaves, image: seq<bool>, j: nat)
    requires InParts(g, b) && 8 * (g.obytes + g.ibytes) <= |image| && j < |image|
    ensures Refreshed(b, if g.blockLRW > 0 then ReadAll(g) else ExchangeAll(g, false), image, image, j)
            == AfterCycle(g, b, image, j)
  {
    var d := if g.blockLRW > 0 then ReadAll(g) else ExchangeAll(g, false);
    var r := seq(|image|, k requires 0 <= k < |image| => Refreshed(b, d, image, image, k));
    RefreshedIsAfter(g, b, image, r);
    assert r[j] == AfterCycle(g, b, image, j);
  }

  lemma PartlyAfter(g: View, b: Slaves, first: nat, rx: map<nat, Reply>, image: seq<bool>, r: seq<bool>)
    requires Usable(g) && InParts(g, b) && 8 * (g.obytes + g.ibytes) <= |image|
    requires IsPartly(b, if g.blockLRW > 0 then ReadAll(g) else ExchangeAll(g, false), Cycle(g, false), first, rx,
                      image, image, r)
    ensures IsAfterLoss(g, b, first, rx, image, r)
  {
    forall j {:trigger r[j]} | 0 <= j < |r|
      ensures r[j] == if Fresh(Cycle(g, false), first, rx, j) then AfterCycle(g, b, image, j) else image[j]
    {
      RefreshedAfter(g, b, image, j);
    }
  }

  ghost predicate NoneFresh(ds: seq<Logical>, first: nat, rx: map<nat, Reply>) {
    forall j: nat :: !Fresh(ds, first, rx, j)
  }

  /** Replies to writes change nothing. */
  lemma LossyWrites(g: View, b: Slaves, dc: bool, ds: seq<Logical>, first: nat, image: seq<bool>, rx: map<nat, Reply>,
                    st: State)
    requires Usable(g) && |st.image| == |image| && ds == Writes(g, dc) && 8 * g.obytes <= |image|
    requires AllInImage(ds, |image|) && Answered(b, ds, first, image, rx, false)
    ensures ReceiveAll(st, Entries(ds, first), rx).image == st.image && NoneFresh(ds, first, rx)
  {
    if g.obytes > 0 {
      var lens := Lens(g.segs, 0, true, g.obytes);
      var d := Logical(LWR, g.logstart, 0, 0, Sum(lens), dc);
      assert Sum(lens) <= g.obytes by { LensWithin(g.segs, 0, true, g.obytes); }
      forall j: nat
        ensures !Fresh(ds, first, rx, j)
      {
        if Fresh(ds, first, rx, j) { FreshInside(ds, d, lens, first, rx, j); }
      }
      var r := ReceiveAll(st, Entries(ds, first), rx).image;
      LossyChain(b, d, lens, ds, first, image, rx, st, r);
      assert r == st.image;
    }
  }

  lemma LossyReads(g: View, b: Slaves, ds: seq<Logical>, first: nat, image: seq<bool>, rx: map<nat, Reply>, st: State)
    requires Tiled(g) && |st.image| == |image| && ds == Reads(g) && 8 * (g.obytes + g.ibytes) <= |image|
    requires AllInImage(ds, |image|) && Answered(b, ds, first, image, rx, false)
    ensures IsPartly(b, ReadAll(g), ds, first, rx, image, st.image, ReceiveAll(st, Entries(ds, first), rx).image)
  {
    if g.ibytes > 0 {
      ReadsCut(g);
      LossyChain(b, ReadAll(g), ReadLens(g), ds, first, image, rx, st, ReceiveAll(st, Entries(ds, first), rx).image);
    } else {
      NoReplies(ds, first, rx, st);
    }
  }

  lemma LossySplit(g: View, b: Slaves, first: nat, image: seq<bool>, rx: map<nat, Reply>, st: State)
    requires Tiled(g) && st.image == image && 8 * (g.obytes + g.ibytes) <= |image|
    requires AllInImage(Split(g), |image|) && Answered(b, Split(g), first, image, rx, false)
    ensures IsPartly(b, ReadAll(g), Split(g), first, rx, image, image,
                     ReceiveAll(st, Entries(Split(g), first), rx).image)
  {
    var dc := g.hasdc && Reads(g) == [];
    var x: seq<Logical> := Reads(g);
    var y: seq<Logical> := Writes(g, dc);
    SplitFromImage(g, dc, |image|);
    AnsweredAppend(b, x, y, first, image, rx, false);
    EntriesAppend(x, y, first);
    ReceiveAppend(st, Entries(x, first), Entries(y, first + |x|), rx);
    var mid := ReceiveAll(st, Entries(x, first), rx);
    LossyReads(g, b, x, first, image, rx, st);
    LossyWrites(g, b, dc, y, first + |x|, image, rx, mid);
    SameFresh(b, ReadAll(g), x, y, first, rx, image, mid.image);
  }

  lemma SameFresh(b: Slaves, d: Logical, x: seq<Logical>, y: seq<Logical>, first: nat, rx: map<nat, Reply>,
                  image: seq<bool>, r: seq<bool>)
    requires IsPartly(b, d, x, first, rx, image, image, r) && NoneFresh(y, first + |x|, rx)
    ensures IsPartly(b, d, x + y, first, rx, image, image, r)
  {
    forall j {:trigger r[j]} | 0 <= j < |r|
      ensures r[j] == if Fresh(x + y, first, rx, j) then Refreshed(b, d, image, image, j) else image[j]
    {
      FreshAppend(x, y, first, rx, j);
    }
  }

  lemma LossyCombined(g: View, b: Slaves, ds: seq<Logical>, first: nat, image: seq<bool>, rx: map<nat, Reply>,
                      st: State)
    requires Tiled(g) && st.image == image && 8 * (g.obytes + g.ibytes) <= |image| && ds == Combined(g, false)
    requires AllInImage(ds, |image|) && Answered(b, ds, first, image, rx, false)
    ensures IsPartly(b, ExchangeAll(g, false), ds, first, rx, image, image,
                     ReceiveAll(st, Entries(ds, first), rx).image)
  {
    var n := Length(g, false);
    var lens := Lens(g.segs, 0, false, n);
    assert Sum(lens) == n by { LensTile(g.segs, 0, n); }
    LossyChain(b, ExchangeAll(g, false), lens, ds, first, image, rx, st, ReceiveAll(st, Entries(ds, first), rx).image);
  }

  /** After a cycle of which any frames came back, with LRW or with LRD and LWR: the bits over which a reply was
      stored are those of a complete cycle, and all others are as before. */
  lemma LossyImage(g: View, b: Slaves, first: nat, image: seq<bool>, rx: map<nat, Reply>, st: State)
    requires Tiled(g) && InParts(g, b) && st.image == image && 8 * (g.obytes + g.ibytes) <= |image|
    requires CycleAnswered(g, false, b, first, image, rx, false)
    ensures IsAfterLoss(g, b, first, rx, image, ImageAfter(g, false, first, rx, st))
  {
    CycleFromImage(g, false, |image|);
    if g.obytes + g.ibytes == 0 {
      NoReplies(Cycle(g, false), first, rx, st);
    } else {
      if g.blockLRW > 0 {
        LossySplit(g, b, first, image, rx, st);
      } else {
        LossyCombined(g, b, Cycle(g, false), first, image, rx, st);
      }
      PartlyAfter(g, b, first, rx, image, ImageAfter(g, false, first, rx, st));
    }
  }
}
