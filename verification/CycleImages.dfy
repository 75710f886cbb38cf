/** What one cycle of process data leaves: the process image after the replies came back, and the output
    bits in the slaves, for LRW, for LRD and LWR, and for the overlapped map. */
module CycleImages {
  import opened Basics
  import opened Segments
  import opened WorkCounter
  import opened ProcessData
  import opened CycleProofs

  // ----- the replies to a chain

  function SentBit(cmd: Command, sent: seq<bool>, k: int): bool {
    cmd != LRD && 0 <= k < |sent| && sent[k]
  }

  /** Bit j of the memory after the reply to datagram d is stored. */
  ghost function Refreshed(b: Slaves, d: Logical, sent: seq<bool>, was: seq<bool>, j: nat): bool
    requires j < |was|
  {
    if d.cmd != LWR && 8 * d.store <= j < 8 * (d.store + d.len)
    then ReplyBit(b, d.cmd, 8 * d.addr + j - 8 * d.store, SentBit(d.cmd, sent, 8 * d.off + j - 8 * d.store)) else was[j]
  }

  ghost predicate IsRefreshed(b: Slaves, d: Logical, sent: seq<bool>, was: seq<bool>, r: seq<bool>) {
    |r| == |was| && forall j {:trigger r[j]} :: 0 <= j < |r| ==> r[j] == Refreshed(b, d, sent, was, j)
  }

  /** The replies to `d` can be sent and stored in a memory of `size` bits. */
  predicate Fitting(d: Logical, size: nat) {
    InImage(d, size) && 8 * (d.store + d.len) <= size
  }

  /** Effect of one reply. */
  lemma ReplyImage(b: Slaves, d: Logical, first: nat, sent: seq<bool>, rx: map<nat, Reply>, st: State)
    requires Fitting(d, |sent|) && |st.image| == |sent|
    requires first % EC_MAXBUF in rx && rx[first % EC_MAXBUF] == ReplyTo(b, d, sent)
    ensures IsRefreshed(b, d, sent, st.image,
                        Receive(st, Entry(first % EC_MAXBUF, d.store, d.len, DcOffset(d)), rx).image)
  {
    if d.cmd != LWR {
      var data := ReplyTo(b, d, sent).data;
      OverlayBits(b, d, sent, st.image, data, Overlay(st.image, 8 * d.store, data));
    }
  }

  lemma OverlayBits(b: Slaves, d: Logical, sent: seq<bool>, was: seq<bool>, data: seq<bool>, r: seq<bool>)
    requires Fitting(d, |sent|) && |was| == |sent| && d.cmd != LWR
    requires data == ReplyTo(b, d, sent).data && r == Overlay(was, 8 * d.store, data)
    ensures IsRefreshed(b, d, sent, was, r)
  {
    forall j {:trigger r[j]} | 0 <= j < |r|
      ensures r[j] == Refreshed(b, d, sent, was, j)
    {
      if 8 * d.store <= j < 8 * (d.store + d.len) { ReplyBits(b, d, sent, j - 8 * d.store); }
    }
  }

  lemma ReplyBits(b: Slaves, d: Logical, sent: seq<bool>, i: nat)
    requires InImage(d, |sent|) && i < 8 * d.len
    ensures ReplyTo(b, d, sent).data[i] == ReplyBit(b, d.cmd, 8 * d.addr + i, SentBit(d.cmd, sent, 8 * d.off + i))
  {
  }

  /** A datagram without its first n bytes. */
  function Behind(d: Logical, n: nat): Logical
    requires n <= d.len
  {
    Logical(d.cmd, d.addr + n, d.off + n, d.store + n, d.len - n, false)
  }

  /** One reply for the first n bytes, then replies for the others, are as good as one for all. */
  lemma RefreshedTwice(b: Slaves, d: Logical, head: Logical, n: nat, sent: seq<bool>, was: seq<bool>, mid: seq<bool>,
                       r: seq<bool>)
    requires n <= d.len && head.cmd == d.cmd && head.addr == d.addr && head.off == d.off && head.store == d.store
             && head.len == n
    requires IsRefreshed(b, head, sent, was, mid) && IsRefreshed(b, Behind(d, n), sent, mid, r)
    ensures IsRefreshed(b, d, sent, was, r)
  {
    forall j {:trigger r[j]} | 0 <= j < |r|
      ensures r[j] == Refreshed(b, d, sent, was, j)
    {
      var m := mid[j];
      assert 8 * (d.addr + n) + j - 8 * (d.store + n) == 8 * d.addr + j - 8 * d.store;
    }
  }

  lemma NothingRefreshed(b: Slaves, d: Logical, sent: seq<bool>, was: seq<bool>)
    requires d.len == 0
    ensures IsRefreshed(b, d, sent, was, was)
  {
  }

  /** The first reply and what it leaves for the others. */
  lemma FirstReply(b: Slaves, ds: seq<Logical>, first: nat, sent: seq<bool>, rx: map<nat, Reply>, st: State)
    returns (mid: State)
    requires ds != [] && AllInImage(ds, |sent|) && Answered(b, ds, first, sent, rx, true)
    requires Fitting(ds[0], |sent|) && |st.image| == |sent|
    ensures AllInImage(ds[1..], |sent|) && Answered(b, ds[1..], first + 1, sent, rx, true)
    ensures IsRefreshed(b, ds[0], sent, st.image, mid.image)
    ensures ReceiveAll(st, Entries(ds, first), rx) == ReceiveAll(mid, Entries(ds[1..], first + 1), rx)
  {
    InImageTail(ds, |sent|);
    mid := Receive(st, Entry(first % EC_MAXBUF, ds[0].store, ds[0].len, DcOffset(ds[0])), rx);
    ReplyImage(b, ds[0], first, sent, rx, st);
    var es := Entries(ds, first);
    assert es[0] == Entry(first % EC_MAXBUF, ds[0].store, ds[0].len, DcOffset(ds[0]))
           && es[1..] == Entries(ds[1..], first + 1);
  }

  /** The chain `ds` cuts datagram d into pieces of the lengths `lens`. */
  predicate Cuts(ds: seq<Logical>, d: Logical, lens: seq<nat>) {
    ds == Chain(d.cmd, d.addr, d.off, d.store, lens, d.dc) && d.len == Sum(lens)
  }

  lemma CutsFirst(ds: seq<Logical>, d: Logical, lens: seq<nat>)
    requires Cuts(ds, d, lens) && lens != []
    ensures lens[0] <= d.len && ds != [] && ds[0] == d.(len := lens[0]) && Cuts(ds[1..], Behind(d, lens[0]), lens[1..])
  {
    ChainHead(d.cmd, d.addr, d.off, d.store, lens, d.dc);
  }

  /** The replies to a chain leave what one reply to the uncut datagram would. */
  lemma {:induction false} ChainImage(b: Slaves, d: Logical, lens: seq<nat>, ds: seq<Logical>, first: nat,
                                      sent: seq<bool>, rx: map<nat, Reply>, st: State, r: seq<bool>)
    requires Cuts(ds, d, lens) && Fitting(d, |sent|) && |st.image| == |sent|
    requires AllInImage(ds, |sent|) && Answered(b, ds, first, sent, rx, true)
    requires r == ReceiveAll(st, Entries(ds, first), rx).image
    ensures IsRefreshed(b, d, sent, st.image, r)
    decreases |lens|
  {
    if lens == [] {
      NoReplies(ds, first, rx, st);
      NothingRefreshed(b, d, sent, st.image);
    } else {
      var n := lens[0];
      CutsFirst(ds, d, lens);
      var mid := FirstReply(b, ds, first, sent, rx, st);
      ChainImage(b, Behind(d, n), lens[1..], ds[1..], first + 1, sent, rx, mid, r);
      RefreshedTwice(b, d, ds[0], n, sent, st.image, mid.image, r);
    }
  }

  lemma NoReplies(ds: seq<Logical>, first: nat, rx: map<nat, Reply>, st: State)
    requires ds == []
    ensures ReceiveAll(st, Entries(ds, first), rx) == st
  {
  }

  lemma {:induction false} ReceiveAppend(st: State, x: seq<Entry>, y: seq<Entry>, rx: map<nat, Reply>)
    ensures ReceiveAll(st, x + y, rx) == ReceiveAll(ReceiveAll(st, x, rx), y, rx)
    decreases x
  {
    if x == [] {
      assert x + y == y;
    } else {
      assert (x + y)[1..] == x[1..] + y;
      ReceiveAppend(Receive(st, x[0], rx), x[1..], y, rx);
    }
  }

  lemma {:induction false} EntriesAppend(x: seq<Logical>, y: seq<Logical>, first: nat)
    ensures Entries(x + y, first) == Entries(x, first) + Entries(y, first + |x|)
    decreases x
  {
    if x == [] {
      assert x + y == y;
    } else {
      assert (x + y)[1..] == x[1..] + y;
      EntriesAppend(x[1..], y, first + 1);
    }
  }

  lemma {:induction false} AnsweredAppend(b: Slaves, x: seq<Logical>, y: seq<Logical>, first: nat, image: seq<bool>,
                                          rx: map<nat, Reply>, all: bool)
    requires AllInImage(x, |image|) && AllInImage(y, |image|) && AllInImage(x + y, |image|)
    requires Answered(b, x + y, first, image, rx, all)
    ensures Answered(b, x, first, image, rx, all) && Answered(b, y, first + |x|, image, rx, all)
    decreases x
  {
    if x == [] {
      assert x + y == y;
    } else {
      assert (x + y)[1..] == x[1..] + y;
      AnsweredAppend(b, x[1..], y, first + 1, image, rx, all);
    }
  }

  // ----- complete cycles

  /** The slaves answered the cycle over a memory that holds the map. */
  ghost predicate CycleAnswered(g: View, overlap: bool, b: Slaves, first: nat, image: seq<bool>, rx: map<nat, Reply>,
                                all: bool)
    requires InTable(g, overlap) && 8 * (g.obytes + g.ibytes) <= |image|
  {
    CycleFromImage(g, overlap, |image|);
    Answered(b, Cycle(g, overlap), first, image, rx, all)
  }

  /** The memory after the replies to a cycle. */
  function ImageAfter(g: View, overlap: bool, first: nat, rx: map<nat, Reply>, st: State): seq<bool>
    requires Usable(g)
  {
    ReceiveAll(st, Entries(Cycle(g, overlap), first), rx).image
  }

  /** Bit j of the process image after a complete cycle: what a slave maps there as input, else what
      was there; sending LRD instead of LRW clears the unmapped bits of the input part. */
  ghost function AfterCycle(g: View, b: Slaves, image: seq<bool>, j: nat): bool
    requires j < |image|
  {
    if Maps(b.ins, 8 * g.logstart + j) then b.level(8 * g.logstart + j)
    else if g.blockLRW > 0 && 8 * g.obytes <= j < 8 * (g.obytes + g.ibytes) then false
    else image[j]
  }

  ghost predicate IsAfterCycle(g: View, b: Slaves, image: seq<bool>, r: seq<bool>) {
    |r| == |image| && forall j :: 0 <= j < |r| ==> r[j] == AfterCycle(g, b, image, j)
  }

  lemma MapsInside(spans: seq<Span>, bit: int, lo: int, hi: int)
    requires AllInside(spans, lo, hi) && Maps(spans, bit)
    ensures lo <= bit < hi
  {
    var k :| 0 <= k < |spans| && spans[k].a <= bit < spans[k].b;
    assert NonEmpty(spans[k]);
  }

  /** The datagram a cycle would be if it were sent in one: LRD over the input part, or LRW over all. */
  function ReadAll(g: View): Logical {
    Logical(LRD, g.logstart + g.obytes, g.obytes, g.obytes, g.ibytes, g.hasdc)
  }

  function ExchangeAll(g: View, overlap: bool): Logical {
    Logical(LRW, g.logstart, 0, if overlap then g.obytes else 0, Length(g, overlap), g.hasdc)
  }

  /** A refreshed input part, or the whole range refreshed, is the image after the cycle. */
  lemma RefreshedIsAfter(g: View, b: Slaves, image: seq<bool>, r: seq<bool>)
    requires InParts(g, b) && 8 * (g.obytes + g.ibytes) <= |image|
    requires IsRefreshed(b, if g.blockLRW > 0 then ReadAll(g) else ExchangeAll(g, false), image, image, r)
    ensures IsAfterCycle(g, b, image, r)
  {
    forall j {:trigger r[j]} | 0 <= j < |r|
      ensures r[j] == AfterCycle(g, b, image, j)
    {
      if Maps(b.ins, 8 * g.logstart + j) {
        MapsInside(b.ins, 8 * g.logstart + j, 8 * (g.logstart + g.obytes), 8 * (g.logstart + g.obytes + g.ibytes));
      }
      assert 8 * (g.logstart + g.obytes) + j - 8 * g.obytes == 8 * g.logstart + j;
    }
  }

  /** LRW over all, plain or overlapped. */
  lemma CombinedImage(g: View, overlap: bool, b: Slaves, ds: seq<Logical>, first: nat, image: seq<bool>,
                      rx: map<nat, Reply>, st: State)
    requires Usable(g) && g.inputs == g.obytes && Sum(g.segs) == Length(g, overlap) && ds == Combined(g, overlap)
    requires st.image == image && 8 * ((if overlap then g.obytes else 0) + Length(g, overlap)) <= |image|
    requires AllInImage(ds, |image|) && Answered(b, ds, first, image, rx, true)
    ensures IsRefreshed(b, ExchangeAll(g, overlap), image, image, ReceiveAll(st, Entries(ds, first), rx).image)
  {
    var n := Length(g, overlap);
    var lens := Lens(g.segs, 0, false, n);
    assert Sum(lens) == n by { LensTile(g.segs, 0, n); }
    ChainImage(b, ExchangeAll(g, overlap), lens, ds, first, image, rx, st,
               ReceiveAll(st, Entries(ds, first), rx).image);
  }

  /** Replies to reads alone refresh the image, replies to writes do not. `read` is what the reads cut. */
  lemma SplitImage(g: View, b: Slaves, read: Logical, first: nat, image: seq<bool>, rx: map<nat, Reply>, st: State)
    requires Usable(g) && st.image == image && 8 * g.obytes <= |image|
    requires AllInImage(Split(g), |image|) && Answered(b, Split(g), first, image, rx, true)
    requires if g.ibytes > 0 then Cuts(Reads(g), read, ReadLens(g)) && Fitting(read, |image|) else read.len == 0
    ensures IsRefreshed(b, read, image, image, ReceiveAll(st, Entries(Split(g), first), rx).image)
  {
    var dc := g.hasdc && Reads(g) == [];
    var x: seq<Logical> := Reads(g);
    var y: seq<Logical> := Writes(g, dc);
    SplitFromImage(g, dc, |image|);
    AnsweredAppend(b, x, y, first, image, rx, true);
    EntriesAppend(x, y, first);
    ReceiveAppend(st, Entries(x, first), Entries(y, first + |x|), rx);
    ReadsImage(g, b, read, x, first, image, rx, st);
    WritesImage(g, b, dc, y, first + |x|, image, rx, ReceiveAll(st, Entries(x, first), rx));
  }

  lemma ReadsImage(g: View, b: Slaves, read: Logical, ds: seq<Logical>, first: nat, image: seq<bool>,
                   rx: map<nat, Reply>, st: State)
    requires Usable(g) && |st.image| == |image| && ds == Reads(g)
    requires AllInImage(ds, |image|) && Answered(b, ds, first, image, rx, true)
    requires if g.ibytes > 0 then Cuts(ds, read, ReadLens(g)) && Fitting(read, |image|) else read.len == 0
    ensures IsRefreshed(b, read, image, st.image, ReceiveAll(st, Entries(ds, first), rx).image)
  {
    if g.ibytes > 0 {
      ChainImage(b, read, ReadLens(g), ds, first, image, rx, st, ReceiveAll(st, Entries(ds, first), rx).image);
    } else {
      NoReplies(ds, first, rx, st);
      NothingRefreshed(b, read, image, st.image);
    }
  }

  lemma WritesImage(g: View, b: Slaves, dc: bool, ds: seq<Logical>, first: nat, image: seq<bool>, rx: map<nat, Reply>,
                    st: State)
    requires Usable(g) && |st.image| == |image| && ds == Writes(g, dc) && 8 * g.obytes <= |image|
    requires AllInImage(ds, |image|) && Answered(b, ds, first, image, rx, true)
    ensures ReceiveAll(st, Entries(ds, first), rx).image == st.image
  {
    if g.obytes > 0 {
      var lens := Lens(g.segs, 0, true, g.obytes);
      assert Sum(lens) <= g.obytes by { LensWithin(g.segs, 0, true, g.obytes); }
      var r := ReceiveAll(st, Entries(ds, first), rx).image;
      ChainImage(b, Logical(LWR, g.logstart, 0, 0, Sum(lens), dc), lens, ds, first, image, rx, st, r);
      assert r == st.image;
    }
  }

  /** What one datagram for the whole cycle would leave. */
  lemma CycleRefreshes(g: View, b: Slaves, ds: seq<Logical>, first: nat, image: seq<bool>, rx: map<nat, Reply>,
                       st: State)
    requires Tiled(g) && st.image == image && 8 * (g.obytes + g.ibytes) <= |image| && ds == Cycle(g, false)
    requires AllInImage(ds, |image|) && Answered(b, ds, first, image, rx, true)
    ensures IsRefreshed(b, if g.blockLRW > 0 then ReadAll(g) else ExchangeAll(g, false), image, image,
                        ReceiveAll(st, Entries(ds, first), rx).image)
  {
    if g.obytes + g.ibytes == 0 {
      NoReplies(ds, first, rx, st);
      NothingRefreshed(b, if g.blockLRW > 0 then ReadAll(g) else ExchangeAll(g, false), image, image);
    } else if g.blockLRW > 0 {
      ReadsCut(g);
      SplitImage(g, b, ReadAll(g), first, image, rx, st);
    } else {
      CombinedImage(g, false, b, ds, first, image, rx, st);
    }
  }

  lemma ReadsCut(g: View)
    requires Tiled(g)
    ensures g.ibytes > 0 ==> Cuts(Reads(g), ReadAll(g), ReadLens(g))
  {
    if g.ibytes > 0 { LensTile(g.segs[g.isegment..], g.ioffset, g.ibytes); }
  }

  /** The image after a complete cycle, however it was sent. */
  lemma CycleImage(g: View, b: Slaves, first: nat, image: seq<bool>, rx: map<nat, Reply>, st: State)
    requires Tiled(g) && InParts(g, b) && st.image == image && 8 * (g.obytes + g.ibytes) <= |image|
    requires CycleAnswered(g, false, b, first, image, rx, true)
    ensures IsAfterCycle(g, b, image, ImageAfter(g, false, first, rx, st))
  {
    CycleFromImage(g, false, |image|);
    CycleRefreshes(g, b, Cycle(g, false), first, image, rx, st);
    RefreshedIsAfter(g, b, image, ImageAfter(g, false, first, rx, st));
  }

  // ----- the outputs in the slaves

  /** What datagram d leaves in an output bit of a slave. */
  ghost function WrittenBy(b: Slaves, d: Logical, image: seq<bool>, bit: int, was: bool): bool
    requires InImage(d, |image|)
  {
    if d.cmd != LRD && 8 * d.addr <= bit < 8 * (d.addr + d.len) && Maps(b.outs, bit)
    then image[8 * d.off + bit - 8 * d.addr] else was
  }

  /** What a slave holds in an output bit after the datagrams passed: the last one that wrote it. */
  ghost function Written(b: Slaves, ds: seq<Logical>, image: seq<bool>, bit: int, was: bool): bool
    requires AllInImage(ds, |image|)
    decreases ds
  {
    if ds == [] then was
    else
      InImageTail(ds, |image|);
      Written(b, ds[1..], image, bit, WrittenBy(b, ds[0], image, bit, was))
  }

  lemma {:induction false} ChainWrites(b: Slaves, d: Logical, lens: seq<nat>, ds: seq<Logical>, image: seq<bool>,
                                       bit: int, was: bool)
    requires Cuts(ds, d, lens) && InImage(d, |image|) && AllInImage(ds, |image|)
    ensures Written(b, ds, image, bit, was) == WrittenBy(b, d, image, bit, was)
    decreases |lens|
  {
    if lens != [] {
      CutsFirst(ds, d, lens);
      InImageTail(ds, |image|);
      var w := WrittenBy(b, ds[0], image, bit, was);
      ChainWrites(b, Behind(d, lens[0]), lens[1..], ds[1..], image, bit, w);
    }
  }

  lemma {:induction false} WrittenAppend(b: Slaves, x: seq<Logical>, y: seq<Logical>, image: seq<bool>, bit: int,
                                         was: bool)
    requires AllInImage(x, |image|) && AllInImage(y, |image|) && AllInImage(x + y, |image|)
    ensures Written(b, x + y, image, bit, was) == Written(b, y, image, bit, Written(b, x, image, bit, was))
    decreases x
  {
    if x == [] {
      assert x + y == y;
    } else {
      InImageTail(x, |image|);
      InImageTail(x + y, |image|);
      assert (x + y)[1..] == x[1..] + y && (x + y)[0] == x[0];
      WrittenAppend(b, x[1..], y, image, bit, WrittenBy(b, x[0], image, bit, was));
    }
  }

  /** What a slave holds in an output bit after the cycle passed. */
  ghost function BitWritten(g: View, overlap: bool, b: Slaves, image: seq<bool>, bit: int, was: bool): bool
    requires InTable(g, overlap) && 8 * (g.obytes + g.ibytes) <= |image|
  {
    CycleFromImage(g, overlap, |image|);
    Written(b, Cycle(g, overlap), image, bit, was)
  }

  /** Datagrams that write the whole output part. */
  lemma ChainDelivers(g: View, b: Slaves, d: Logical, lens: seq<nat>, ds: seq<Logical>, image: seq<bool>, bit: int,
                      was: bool)
    requires Cuts(ds, d, lens) && InImage(d, |image|) && AllInImage(ds, |image|)
    requires d.cmd != LRD && d.addr == g.logstart && d.off == 0 && d.len >= g.obytes
    requires Maps(b.outs, bit) && 8 * g.logstart <= bit < 8 * (g.logstart + g.obytes)
    ensures 0 <= bit - 8 * g.logstart < |image| && Written(b, ds, image, bit, was) == image[bit - 8 * g.logstart]
  {
    ChainWrites(b, d, lens, ds, image, bit, was);
  }

  lemma OutputsSplit(g: View, b: Slaves, image: seq<bool>, bit: int, was: bool)
    requires Usable(g) && Sum(g.segs) >= g.obytes && 8 * g.obytes <= |image| && AllInImage(Split(g), |image|)
    requires Maps(b.outs, bit) && 8 * g.logstart <= bit < 8 * (g.logstart + g.obytes)
    ensures Written(b, Split(g), image, bit, was) == image[bit - 8 * g.logstart]
  {
    var dc := g.hasdc && Reads(g) == [];
    SplitFromImage(g, dc, |image|);
    WrittenAppend(b, Reads(g), Writes(g, dc), image, bit, was);
    var lens := Lens(g.segs, 0, true, g.obytes);
    assert Sum(lens) == g.obytes by { ClippedTile(g.segs, g.obytes); }
    ChainDelivers(g, b, Logical(LWR, g.logstart, 0, 0, g.obytes, dc), lens, Writes(g, dc), image, bit,
                  Written(b, Reads(g), image, bit, was));
  }

  /** Every mapped output bit holds its bit of the process image after the cycle, sent either way, in a
      plain map and in an overlapped one. */
  lemma OutputsDelivered(g: View, overlap: bool, b: Slaves, image: seq<bool>, bit: int, was: bool)
    requires InTable(g, overlap) && Sum(g.segs) == Length(g, overlap) && 8 * (g.obytes + g.ibytes) <= |image|
    requires Maps(b.outs, bit) && 8 * g.logstart <= bit < 8 * (g.logstart + g.obytes)
    ensures BitWritten(g, overlap, b, image, bit, was) == image[bit - 8 * g.logstart]
  {
    CycleFromImage(g, overlap, |image|);
    if g.blockLRW > 0 {
      OutputsSplit(g, b, image, bit, was);
    } else {
      var n := Length(g, overlap);
      var lens := Lens(g.segs, 0, false, n);
      assert Sum(lens) == n by { LensTile(g.segs, 0, n); }
      ChainDelivers(g, b, ExchangeAll(g, overlap), lens, Combined(g, overlap), image, bit, was);
    }
  }

  /** No bit of the input part that no slave maps was set. */
  predicate UnmappedClear(g: View, b: Slaves, image: seq<bool>)
    requires 8 * (g.obytes + g.ibytes) <= |image|
  {
    forall j :: 8 * g.obytes <= j < 8 * (g.obytes + g.ibytes) && !Maps(b.ins, 8 * g.logstart + j) ==> !image[j]
  }

  /** Split equals combined. One cycle is sent over the same image with LRW, and one with LRD and LWR, and
      all frames of both come back: the images received are the same exactly when no unmapped bit of the
      input part was set, and every mapped output bit of the slaves is the same. */
  lemma SplitEqualsCombined(g: View, b: Slaves, image: seq<bool>, first1: nat, rx1: map<nat, Reply>, st1: State,
                            first2: nat, rx2: map<nat, Reply>, st2: State, bit: int, was1: bool, was2: bool)
    requires Tiled(g) && InParts(g, b) && 8 * (g.obytes + g.ibytes) <= |image| && st1.image == st2.image == image
    requires CycleAnswered(g.(blockLRW := 0), false, b, first1, image, rx1, true)
    requires CycleAnswered(g.(blockLRW := 1), false, b, first2, image, rx2, true)
    ensures ImageAfter(g.(blockLRW := 0), false, first1, rx1, st1)
            == ImageAfter(g.(blockLRW := 1), false, first2, rx2, st2)
            <==> UnmappedClear(g, b, image)
    ensures Maps(b.outs, bit) ==>
              BitWritten(g.(blockLRW := 0), false, b, image, bit, was1)
                == BitWritten(g.(blockLRW := 1), false, b, image, bit, was2)
  {
    var lrw, lwr := g.(blockLRW := 0), g.(blockLRW := 1);
    assert Tiled(lrw) && InParts(lrw, b) && Tiled(lwr) && InParts(lwr, b);
    ImagesSame(g, lrw, lwr, b, image, first1, rx1, st1, first2, rx2, st2);
    if Maps(b.outs, bit) { SameOutput(lrw, lwr, b, image, bit, was1, was2); }
  }

  lemma ImagesSame(g: View, lrw: View, lwr: View, b: Slaves, image: seq<bool>, first1: nat, rx1: map<nat, Reply>,
                   st1: State, first2: nat, rx2: map<nat, Reply>, st2: State)
    requires lrw == g.(blockLRW := 0) && lwr == g.(blockLRW := 1)
    requires Tiled(lrw) && InParts(lrw, b) && Tiled(lwr) && InParts(lwr, b)
    requires 8 * (g.obytes + g.ibytes) <= |image| && st1.image == st2.image == image
    requires CycleAnswered(lrw, false, b, first1, image, rx1, true)
             && CycleAnswered(lwr, false, b, first2, image, rx2, true)
    ensures ImageAfter(lrw, false, first1, rx1, st1) == ImageAfter(lwr, false, first2, rx2, st2) <==>
            UnmappedClear(g, b, image)
  {
    CycleImage(lrw, b, first1, image, rx1, st1);
    CycleImage(lwr, b, first2, image, rx2, st2);
    SameAfter(g, b, image, ImageAfter(lrw, false, first1, rx1, st1), ImageAfter(lwr, false, first2, rx2, st2));
  }

  lemma SameOutput(x: View, y: View, b: Slaves, image: seq<bool>, bit: int, was1: bool, was2: bool)
    requires Tiled(x) && InParts(x, b) && 8 * (x.obytes + x.ibytes) <= |image| && Maps(b.outs, bit)
    requires Tiled(y) && InParts(y, b) && 8 * (y.obytes + y.ibytes) <= |image| && x.logstart == y.logstart
    ensures BitWritten(x, false, b, image, bit, was1) == BitWritten(y, false, b, image, bit, was2)
  {
    assert 0 <= bit - 8 * x.logstart < |image|
           && BitWritten(x, false, b, image, bit, was1) == image[bit - 8 * x.logstart] by {
      OutputWritten(x, b, image, bit, was1);
    }
    OutputWritten(y, b, image, bit, was2);
  }

  lemma OutputWritten(g: View, b: Slaves, image: seq<bool>, bit: int, was: bool)
    requires Tiled(g) && InParts(g, b) && 8 * (g.obytes + g.ibytes) <= |image| && Maps(b.outs, bit)
    ensures 0 <= bit - 8 * g.logstart < |image|
            && BitWritten(g, false, b, image, bit, was) == image[bit - 8 * g.logstart]
  {
    MapsInside(b.outs, bit, 8 * g.logstart, 8 * (g.logstart + g.obytes));
    OutputsDelivered(g, false, b, image, bit, was);
  }

  lemma SameAfter(g: View, b: Slaves, image: seq<bool>, x: seq<bool>, y: seq<bool>)
    requires 8 * (g.obytes + g.ibytes) <= |image|
    requires IsAfterCycle(g.(blockLRW := 0), b, image, x) && IsAfterCycle(g.(blockLRW := 1), b, image, y)
    ensures x == y <==> UnmappedClear(g, b, image)
  {
    if x == y {
      forall j | 8 * g.obytes <= j < 8 * (g.obytes + g.ibytes) && !Maps(b.ins, 8 * g.logstart + j)
        ensures !image[j]
      {
        assert x[j] == y[j];
      }
    }
  }

  /** One byte of inputs, and nothing else. */
  predicate OneInput(g: View) {
    g.inputs == g.obytes == g.isegment == g.ioffset == 0 && g.ibytes == 1 && g.segs == [1]
  }

  lemma OneInputTiled(g: View)
    requires OneInput(g)
    ensures Tiled(g) && InTable(g, false) && |Cycle(g, false)| == 1
  {
    assert Sum(g.segs) == 1 + Sum(g.segs[1..]) && g.segs[1..] == [] && g.segs[0..] == g.segs;
  }

  /** Replies that complete a cycle. */
  lemma Complete(g: View, overlap: bool, b: Slaves, first: nat, image: seq<bool>) returns (rx: map<nat, Reply>)
    requires InTable(g, overlap) && |Cycle(g, overlap)| <= EC_MAXBUF && 8 * (g.obytes + g.ibytes) <= |image|
    ensures CycleAnswered(g, overlap, b, first, image, rx, true)
  {
    CycleFromImage(g, overlap, |image|);
    rx := Replies(b, Cycle(g, overlap), first, image);
    RepliesAnswer(b, Cycle(g, overlap), first, image);
  }

  /** An unmapped bit that is set: both cycles can complete, and leave different images. */
  lemma UnmappedDiffers(g: View, lrw: View, lwr: View, b: Slaves, st: State, j: nat)
    returns (rx1: map<nat, Reply>, rx2: map<nat, Reply>)
    requires lrw == g.(blockLRW := 0) && lwr == g.(blockLRW := 1) && Tiled(g) && InParts(g, b) && InTable(lrw, false)
             && InTable(lwr, false)
    requires |Cycle(lrw, false)| <= EC_MAXBUF && |Cycle(lwr, false)| <= EC_MAXBUF
             && 8 * (g.obytes + g.ibytes) <= |st.image|
    requires 8 * g.obytes <= j < 8 * (g.obytes + g.ibytes) && !Maps(b.ins, 8 * g.logstart + j) && st.image[j]
    ensures CycleAnswered(lrw, false, b, 0, st.image, rx1, true) && CycleAnswered(lwr, false, b, 0, st.image, rx2, true)
    ensures ImageAfter(lrw, false, 0, rx1, st) != ImageAfter(lwr, false, 0, rx2, st)
  {
    rx1 := Complete(lrw, false, b, 0, st.image);
    rx2 := Complete(lwr, false, b, 0, st.image);
    SplitEqualsCombined(g, b, st.image, 0, rx1, st, 0, rx2, st, 0, false, false);
  }

  /** So it is with one byte of inputs that nobody maps. */
  lemma OneInputDiffers(g: View, b: Slaves, st: State) returns (rx1: map<nat, Reply>, rx2: map<nat, Reply>)
    requires OneInput(g) && b.outs == b.ins == [] && |st.image| == 8 && st.image[0]
    ensures InTable(g.(blockLRW := 0), false) && InTable(g.(blockLRW := 1), false)
    ensures CycleAnswered(g.(blockLRW := 0), false, b, 0, st.image, rx1, true)
    ensures CycleAnswered(g.(blockLRW := 1), false, b, 0, st.image, rx2, true)
    ensures ImageAfter(g.(blockLRW := 0), false, 0, rx1, st) != ImageAfter(g.(blockLRW := 1), false, 0, rx2, st)
  {
    OneInputTiled(g);
    OneInputTiled(g.(blockLRW := 0));
    OneInputTiled(g.(blockLRW := 1));
    rx1, rx2 := UnmappedDiffers(g, g.(blockLRW := 0), g.(blockLRW := 1), b, st, 0);
  }
}
