/** One cycle of process data: ecx_main_send_processdata cuts the image into logical datagrams,
    ecx_receive_processdata_group puts the replies back and totals the work counters. */
module ProcessData {
  import opened Basics
  import opened Segments

  datatype Command = LRD | LWR | LRW

  /** A logical datagram: address and length in bytes, where its data comes from in the process
      image, where the reply goes, and whether the clock datagram rides behind it. */
  datatype Logical = Logical(cmd: Command, addr: nat, off: nat, store: nat, len: nat, dc: bool)

  /** The fields of a group that sending reads; `segs` are the used entries of the segment table. */
  datatype View = View(logstart: nat, obytes: nat, ibytes: nat, inputs: nat, segs: seq<nat>,
                       isegment: nat, ioffset: nat, blockLRW: nat, hasdc: bool)

  predicate Usable(g: View) {
    g.isegment < |g.segs| && g.ioffset <= g.segs[g.isegment]
  }

  // ----- what is sent

  /** Lengths of the datagrams over the segments `segs`: the first segment without its first `skip`
      bytes, then whole segments, until `length` bytes are used up or the table ends. With `clip`
      the last one is cut off at `length`. */
  function Lens(segs: seq<nat>, skip: nat, clip: bool, length: int): seq<nat>
    requires segs != [] && skip <= segs[0] && (clip ==> length >= 0)
    decreases segs
  {
    var sub := Sublength(segs[0] - skip, clip, length);
    [sub] + if length - sub != 0 && |segs| > 1 then Lens(segs[1..], 0, clip, length - sub) else []
  }

  function Sublength(segment: nat, clip: bool, length: int): nat
    requires clip ==> length >= 0
  {
    if clip && length - segment < 0 then length else segment
  }

  /** Datagrams of the given lengths one behind the other; the clock rides with the first. */
  function Chain(cmd: Command, addr: nat, off: nat, store: nat, lens: seq<nat>, dc: bool): (r: seq<Logical>)
    ensures |r| == |lens|
    decreases lens
  {
    if lens == [] then []
    else [Logical(cmd, addr, off, store, lens[0], dc)]
         + Chain(cmd, addr + lens[0], off + lens[0], store + lens[0], lens[1..], false)
  }

  function ReadLens(g: View): seq<nat>
    requires Usable(g)
  {
    Lens(g.segs[g.isegment..], g.ioffset, false, g.ibytes)
  }

  function Length(g: View, overlap: bool): nat {
    if overlap then if g.obytes > g.ibytes then g.obytes else g.ibytes else g.obytes + g.ibytes
  }

  /** The datagrams of one cycle. */
  function Cycle(g: View, overlap: bool): seq<Logical>
    requires Usable(g)
  {
    if Length(g, overlap) == 0 then []
    else if g.blockLRW > 0 then Split(g)
    else Combined(g, overlap)
  }

  function Reads(g: View): seq<Logical>
    requires Usable(g)
  {
    if g.ibytes > 0 then Chain(LRD, g.logstart + g.obytes, g.inputs, g.inputs, ReadLens(g), g.hasdc) else []
  }

  function Writes(g: View, dc: bool): seq<Logical>
    requires Usable(g)
  {
    if g.obytes > 0 then Chain(LWR, g.logstart, 0, 0, Lens(g.segs, 0, true, g.obytes), dc) else []
  }

  function Split(g: View): seq<Logical>
    requires Usable(g)
  {
    Reads(g) + Writes(g, g.hasdc && Reads(g) == [])
  }

  function Combined(g: View, overlap: bool): seq<Logical>
    requires Usable(g)
  {
    var off := if g.obytes > 0 then 0 else g.inputs;
    Chain(LRW, g.logstart, off, off + if overlap && g.obytes > 0 then g.obytes else 0,
          Lens(g.segs, 0, false, Length(g, overlap)), g.hasdc)
  }

  /** A frame on the wire. Payloads are bits, eight to a byte. */
  datatype Frame = Frame(idx: nat, d: Logical, data: seq<bool>)

  /** What is sent lies inside a memory of `size` bits; LRD takes nothing from it. */
  predicate InImage(d: Logical, size: nat) {
    d.cmd == LRD || 8 * (d.off + d.len) <= size
  }

  /** LRD sends zeros, the others send the image. */
  function Payload(d: Logical, image: seq<bool>): seq<bool>
    requires InImage(d, |image|)
  {
    if d.cmd == LRD then seq(8 * d.len, _ => false) else image[8 * d.off..8 * (d.off + d.len)]
  }

  predicate AllInImage(ds: seq<Logical>, size: nat) {
    forall k :: 0 <= k < |ds| ==> InImage(ds[k], size)
  }

  function Frames(ds: seq<Logical>, image: seq<bool>, first: nat): seq<Frame>
    requires AllInImage(ds, |image|)
  {
    if ds == [] then []
    else [Frame(first % EC_MAXBUF, ds[0], Payload(ds[0], image))] + Frames(ds[1..], image, first + 1)
  }

  /** Entry of the index stack: index, where the reply goes, its length, offset of the clock data. */
  datatype Entry = Entry(idx: nat, store: nat, len: nat, dcoffset: nat)

  /** Offset of the second datagram's data in the received frame: 12 header bytes, the data, the
      work counter, 10 header bytes. */
  function DcOffset(d: Logical): nat { if d.dc then d.len + 24 else 0 }

  function Push(stack: seq<Entry>, idx: nat, d: Logical): seq<Entry> {
    if |stack| < EC_MAXBUF then stack + [Entry(idx, d.store, d.len, DcOffset(d))] else stack
  }

  function PushAll(stack: seq<Entry>, ds: seq<Logical>, first: nat): seq<Entry>
    decreases ds
  {
    if ds == [] then stack else PushAll(Push(stack, first % EC_MAXBUF, ds[0]), ds[1..], first + 1)
  }

  lemma InImageAppend(a: seq<Logical>, b: seq<Logical>, size: nat)
    requires AllInImage(a, size) && AllInImage(b, size)
    ensures AllInImage(a + b, size)
  {
  }

  lemma InImageTail(ds: seq<Logical>, size: nat)
    requires ds != [] && AllInImage(ds, size)
    ensures InImage(ds[0], size) && AllInImage(ds[1..], size)
  {
    assert forall k :: 0 <= k < |ds[1..]| ==> ds[1..][k] == ds[k + 1];
  }

  lemma {:induction false} FramesAppend(a: seq<Logical>, b: seq<Logical>, image: seq<bool>, first: nat)
    requires AllInImage(a, |image|) && AllInImage(b, |image|)
    ensures AllInImage(a + b, |image|)
    ensures Frames(a + b, image, first) == Frames(a, image, first) + Frames(b, image, first + |a|)
    decreases a
  {
    InImageAppend(a, b, |image|);
    if a == [] {
      assert a + b == b;
    } else {
      InImageTail(a, |image|);
      assert (a + b)[1..] == a[1..] + b;
      FramesAppend(a[1..], b, image, first + 1);
    }
  }

  lemma {:induction false} PushAppend(stack: seq<Entry>, a: seq<Logical>, b: seq<Logical>, first: nat)
    ensures PushAll(stack, a + b, first) == PushAll(PushAll(stack, a, first), b, first + |a|)
    decreases a
  {
    if a == [] {
      assert a + b == b;
    } else {
      assert (a + b)[1..] == a[1..] + b;
      PushAppend(Push(stack, first % EC_MAXBUF, a[0]), a[1..], b, first + 1);
    }
  }

  /** The view of a mapped group: its segments add up to what a cycle is over, or to less if the table ran full. */
  predicate InTable(g: View, overlap: bool) {
    Usable(g) && g.inputs == g.obytes && Sum(g.segs) <= Length(g, overlap)
  }

  lemma {:induction false} LensWithin(segs: seq<nat>, skip: nat, clip: bool, length: int)
    requires segs != [] && skip <= segs[0] && (clip ==> length >= 0)
    ensures Sum(Lens(segs, skip, clip, length)) <= Sum(segs) - skip
    ensures clip ==> Sum(Lens(segs, skip, clip, length)) <= length
    decreases segs
  {
    var sub := Sublength(segs[0] - skip, clip, length);
    var lens := Lens(segs, skip, clip, length);
    if length - sub != 0 && |segs| > 1 {
      LensWithin(segs[1..], 0, clip, length - sub);
      assert lens[1..] == Lens(segs[1..], 0, clip, length - sub);
    } else {
      assert lens[1..] == [];
    }
  }

  /** A chain sends from the bytes it is over. */
  lemma {:induction false} ChainInImage(cmd: Command, addr: nat, off: nat, store: nat, lens: seq<nat>, dc: bool,
                                        size: nat)
    requires cmd == LRD || 8 * (off + Sum(lens)) <= size
    ensures AllInImage(Chain(cmd, addr, off, store, lens, dc), size)
    decreases lens
  {
    if lens != [] {
      var ds := Chain(cmd, addr, off, store, lens, dc);
      ChainHead(cmd, addr, off, store, lens, dc);
      ChainInImage(cmd, addr + lens[0], off + lens[0], store + lens[0], lens[1..], false, size);
      assert forall k :: 1 <= k < |ds| ==> ds[k] == ds[1..][k - 1];
    }
  }

  lemma ReadsInImage(g: View, size: nat)
    requires Usable(g)
    ensures AllInImage(Reads(g), size)
  {
    if g.ibytes > 0 { ChainInImage(LRD, g.logstart + g.obytes, g.inputs, g.inputs, ReadLens(g), g.hasdc, size); }
  }

  lemma WritesInImage(g: View, dc: bool, size: nat)
    requires Usable(g) && 8 * g.obytes <= size
    ensures AllInImage(Writes(g, dc), size)
  {
    if g.obytes > 0 {
      LensWithin(g.segs, 0, true, g.obytes);
      ChainInImage(LWR, g.logstart, 0, 0, Lens(g.segs, 0, true, g.obytes), dc, size);
    }
  }

  lemma SplitFromImage(g: View, dc: bool, size: nat)
    requires Usable(g) && 8 * g.obytes <= size
    ensures AllInImage(Reads(g), size) && AllInImage(Writes(g, dc), size)
  {
    ReadsInImage(g, size);
    WritesInImage(g, dc, size);
  }

  /** Every datagram of a cycle is sent from inside the map, on every path. */
  lemma CycleFromImage(g: View, overlap: bool, size: nat)
    requires InTable(g, overlap) && size >= 8 * (g.obytes + g.ibytes)
    ensures AllInImage(Cycle(g, overlap), size)
  {
    var length := Length(g, overlap);
    if length > 0 && g.blockLRW > 0 {
      var dc := g.hasdc && Reads(g) == [];
      SplitFromImage(g, dc, size);
      InImageAppend(Reads(g), Writes(g, dc), size);
    } else if length > 0 {
      var off := if g.obytes > 0 then 0 else g.inputs;
      LensWithin(g.segs, 0, false, length);
      ChainInImage(LRW, g.logstart, off, off + if overlap && g.obytes > 0 then g.obytes else 0,
                   Lens(g.segs, 0, false, length), g.hasdc, size);
    }
  }

  lemma ChainHead(cmd: Command, addr: nat, off: nat, store: nat, lens: seq<nat>, dc: bool)
    requires lens != []
    ensures var ds := Chain(cmd, addr, off, store, lens, dc);
      && ds[0] == Logical(cmd, addr, off, store, lens[0], dc)
      && ds[1..] == Chain(cmd, addr + lens[0], off + lens[0], store + lens[0], lens[1..], false)
  {
  }

  /** The datagrams `rest` are still to be sent, from segment `cur` on. */
  ghost predicate Coming(cmd: Command, segs: seq<nat>, cur: nat, skipped: nat, clip: bool, length: int,
                         addr: nat, off: nat, store: nat, dc: bool, rest: seq<Logical>)
    decreases |rest|
  {
    && cur < |segs| && skipped <= segs[cur] && (clip ==> length >= 0) && rest != []
    && var n := Sublength(segs[cur] - skipped, clip, length);
    && rest[0] == Logical(cmd, addr, off, store, n, dc)
    && if length - n != 0 && cur + 1 < |segs|
       then Coming(cmd, segs, cur + 1, 0, clip, length - n, addr + n, off + n, store + n, false, rest[1..])
       else rest[1..] == []
  }

  lemma {:induction false} ChainIsComing(cmd: Command, segs: seq<nat>, cur: nat, skipped: nat, clip: bool, length: int,
                                         addr: nat, off: nat, store: nat, dc: bool)
    requires cur < |segs| && skipped <= segs[cur] && (clip ==> length >= 0)
    ensures Coming(cmd, segs, cur, skipped, clip, length, addr, off, store, dc,
                   Chain(cmd, addr, off, store, Lens(segs[cur..], skipped, clip, length), dc))
    decreases |segs| - cur
  {
    var n := Sublength(segs[cur] - skipped, clip, length);
    ChainHead(cmd, addr, off, store, Lens(segs[cur..], skipped, clip, length), dc);
    if length - n != 0 && cur + 1 < |segs| {
      ChainIsComing(cmd, segs, cur + 1, 0, clip, length - n, addr + n, off + n, store + n, false);
    }
  }

  lemma Regroup(a: seq<Frame>, f: Frame, later: seq<Frame>)
    ensures a + ([f] + later) == (a + [f]) + later
  {
  }

  // ----- what comes back

  /** A returned frame: data and work counter of the first datagram, the clock if it rode along, and
      the work counter of the last datagram, which is what waiting for the frame yields. */
  datatype Reply = Reply(cmd: Command, data: seq<bool>, wkc: nat, clock: int, last: nat)

  datatype State = State(image: seq<bool>, clock: int, wkc: int, valid: bool)

  function Overlay(image: seq<bool>, at: nat, data: seq<bool>): (r: seq<bool>)
    requires at + |data| <= |image|
    ensures |r| == |image|
  {
    image[..at] + data + image[at + |data|..]
  }

  /** Effect of the frame of one stack entry; a missing frame has none. What a reply stores behind the
      memory `st.image` is not followed. */
  function Receive(st: State, e: Entry, rx: map<nat, Reply>): State {
    if e.idx !in rx then st
    else
      var r := rx[e.idx];
      var image := if r.cmd != LWR && |r.data| == 8 * e.len && 8 * (e.store + e.len) <= |st.image|
                   then Overlay(st.image, 8 * e.store, r.data) else st.image;
      var gain := if e.dcoffset > 0 then r.wkc else r.last;
      var worth := if r.cmd == LWR then gain * 2 else gain;
      State(image, if e.dcoffset > 0 then r.clock else st.clock,
            if e.dcoffset > 0 then worth else st.wkc + worth, true)
  }

  function ReceiveAll(st: State, stack: seq<Entry>, rx: map<nat, Reply>): State
    decreases stack
  {
    if stack == [] then st else ReceiveAll(Receive(st, stack[0], rx), stack[1..], rx)
  }

  class Exchange {
    /** Memory from the start of the IO map on: the map, and possibly something behind it. */
    var image: seq<bool>
    var stack: seq<Entry>
    var pulled: nat
    var clock: int
    var nextIndex: nat

    constructor (size: nat)
      ensures |image| == 8 * size && stack == [] && pulled == 0
    {
      image := seq(8 * size, _ => false);
      stack, pulled, clock, nextIndex := [], 0, 0, 0;
    }

    /** Build, send and push one frame. */
    method SendDatagram(d: Logical) returns (f: Frame)
      requires InImage(d, |image|)
      modifies this`stack, this`nextIndex
      ensures f == Frame(old(nextIndex) % EC_MAXBUF, d, Payload(d, image))
      ensures stack == Push(old(stack), old(nextIndex) % EC_MAXBUF, d) && nextIndex == old(nextIndex) + 1
    {
      var idx := nextIndex % EC_MAXBUF;
      nextIndex := nextIndex + 1;
      f := Frame(idx, d, Payload(d, image));
      if |stack| < EC_MAXBUF {
        stack := stack + [Entry(idx, d.store, d.len, DcOffset(d))];
      }
    }

    /** Send the first of the datagrams `rest`. */
    method SendHead(d: Logical, ghost rest: seq<Logical>) returns (f: Frame)
      requires rest != [] && d == rest[0] && AllInImage(rest, |image|)
      modifies this`stack, this`nextIndex
      ensures AllInImage(rest[1..], |image|) && nextIndex == old(nextIndex) + 1
      ensures Frames(rest, image, old(nextIndex)) == [f] + Frames(rest[1..], image, nextIndex)
      ensures PushAll(old(stack), rest, old(nextIndex)) == PushAll(stack, rest[1..], nextIndex)
    {
      assert InImage(rest[0], |image|);
      f := SendDatagram(d);
    }

    /** The segment loop of sending: one frame for each of the datagrams `all`. */
    method SendComing(cmd: Command, segs: seq<nat>, skip: nat, clip: bool, length0: nat, addr: nat, off: nat,
                      store: nat, dc: bool, ghost all: seq<Logical>)
      returns (sent: seq<Frame>)
      requires Coming(cmd, segs, 0, skip, clip, length0, addr, off, store, dc, all) && AllInImage(all, |image|)
      modifies this`stack, this`nextIndex
      ensures sent == Frames(all, image, old(nextIndex))
      ensures stack == PushAll(old(stack), all, old(nextIndex)) && nextIndex == old(nextIndex) + |all|
    {
      sent := [];
      ghost var rest := all;
      var length: int, cur: nat, skipped := length0, 0, skip;
      var logAdr: nat, data: nat, target: nat := addr, off, store;
      var first, going := dc, true;
      while going
        invariant if going then Coming(cmd, segs, cur, skipped, clip, length, logAdr, data, target, first, rest)
                  else rest == []
        invariant AllInImage(rest, |image|) && nextIndex + |rest| == old(nextIndex) + |all|
        invariant Frames(all, image, old(nextIndex)) == sent + Frames(rest, image, nextIndex)
        invariant PushAll(old(stack), all, old(nextIndex)) == PushAll(stack, rest, nextIndex)
        decreases |rest|, going
      {
        var sublength := segs[cur] - skipped;
        if clip && length - sublength < 0 {
          sublength := length;
        }
        cur, skipped := cur + 1, 0;
        ghost var before := sent;
        var f := SendHead(Logical(cmd, logAdr, data, target, sublength, first), rest);
        sent := sent + [f];
        Regroup(before, f, Frames(rest[1..], image, nextIndex));
        first := false;
        length := length - sublength;
        logAdr, data, target := logAdr + sublength, data + sublength, target + sublength;
        going := length != 0 && cur < |segs|;
        rest := rest[1..];
      }
    }

    /** Send the datagrams over some segments. */
    method SendSegments(cmd: Command, segs: seq<nat>, skip: nat, clip: bool, length0: nat, addr: nat, off: nat,
                        store: nat, dc: bool)
      returns (sent: seq<Frame>)
      requires segs != [] && skip <= segs[0]
      requires AllInImage(Chain(cmd, addr, off, store, Lens(segs, skip, clip, length0), dc), |image|)
      modifies this`stack, this`nextIndex
      ensures var ds := Chain(cmd, addr, off, store, Lens(segs, skip, clip, length0), dc);
        && sent == Frames(ds, image, old(nextIndex))
        && stack == PushAll(old(stack), ds, old(nextIndex)) && nextIndex == old(nextIndex) + |ds|
    {
      ghost var all := Chain(cmd, addr, off, store, Lens(segs, skip, clip, length0), dc);
      assert segs[0..] == segs;
      ChainIsComing(cmd, segs, 0, skip, clip, length0, addr, off, store, dc);
      sent := SendComing(cmd, segs, skip, clip, length0, addr, off, store, dc, all);
    }

    method SendReads(g: View) returns (sent: seq<Frame>)
      requires Usable(g) && AllInImage(Reads(g), |image|)
      modifies this`stack, this`nextIndex
      ensures sent == Frames(Reads(g), image, old(nextIndex))
      ensures stack == PushAll(old(stack), Reads(g), old(nextIndex)) && nextIndex == old(nextIndex) + |Reads(g)|
    {
      sent := [];
      if g.ibytes > 0 {
        sent := SendSegments(LRD, g.segs[g.isegment..], g.ioffset, false, g.ibytes, g.logstart + g.obytes, g.inputs,
                             g.inputs, g.hasdc);
      }
    }

    method SendWrites(g: View, first: bool) returns (sent: seq<Frame>)
      requires Usable(g) && AllInImage(Writes(g, first), |image|)
      modifies this`stack, this`nextIndex
      ensures sent == Frames(Writes(g, first), image, old(nextIndex))
      ensures stack == PushAll(old(stack), Writes(g, first), old(nextIndex))
    {
      sent := [];
      if g.obytes > 0 {
        sent := SendSegments(LWR, g.segs, 0, true, g.obytes, g.logstart, 0, 0, first);
      }
    }

    /** The branch without LRW: read the inputs, then write the outputs. */
    method SendSplit(g: View) returns (sent: seq<Frame>)
      requires Usable(g) && 8 * g.obytes <= |image|
      modifies this`stack, this`nextIndex
      ensures AllInImage(Split(g), |image|) && sent == Frames(Split(g), image, old(nextIndex))
      ensures stack == PushAll(old(stack), Split(g), old(nextIndex))
    {
      var first := g.hasdc && g.ibytes == 0;
      assert first == (g.hasdc && Reads(g) == []);
      ghost var a, b := Reads(g), Writes(g, first);
      SplitFromImage(g, first, |image|);
      FramesAppend(a, b, image, nextIndex);
      PushAppend(stack, a, b, nextIndex);
      sent := SendReads(g);
      var more := SendWrites(g, first);
      sent := sent + more;
    }

    /** ecx_main_send_processdata. */
    method Send(g: View, overlap: bool) returns (wkc: nat, sent: seq<Frame>)
      requires InTable(g, overlap) && 8 * (g.obytes + g.ibytes) <= |image|
      modifies this`stack, this`nextIndex
      ensures AllInImage(Cycle(g, overlap), |image|) && sent == Frames(Cycle(g, overlap), image, old(nextIndex))
      ensures stack == PushAll(old(stack), Cycle(g, overlap), old(nextIndex))
      ensures wkc == if Length(g, overlap) == 0 then 0 else 1
    {
      wkc, sent := 0, [];
      CycleFromImage(g, overlap, |image|);
      var length := Length(g, overlap);
      if length != 0 {
        wkc := 1;
        if g.blockLRW > 0 {
          sent := SendSplit(g);
        } else {
          var off := if g.obytes > 0 then 0 else g.inputs;
          var shift := if overlap && g.obytes > 0 then g.obytes else 0;
          sent := SendSegments(LRW, g.segs, 0, false, length, g.logstart, off, off + shift, g.hasdc);
        }
      }
    }

    /** ecx_receive_processdata_group: take the replies in the order of sending. */
    method ReceiveReplies(rx: map<nat, Reply>) returns (wkc: int)
      requires pulled == 0
      modifies this`image, this`stack, this`pulled, this`clock
      ensures var st := ReceiveAll(State(old(image), old(clock), 0, false), old(stack), rx);
        image == st.image && clock == st.clock && wkc == (if st.valid then st.wkc else EC_NOFRAME)
      ensures stack == [] && pulled == 0
    {
      var total: int, valid := 0, false;
      ghost var result := ReceiveAll(State(image, clock, 0, false), stack, rx);
      while pulled < |stack|
        invariant pulled <= |stack| && stack == old(stack)
        invariant ReceiveAll(State(image, clock, total, valid), stack[pulled..], rx) == result
      {
        var e := stack[pulled];
        assert stack[pulled..][1..] == stack[pulled + 1..];
        pulled := pulled + 1;
        if e.idx in rx {
          var r := rx[e.idx];
          if r.cmd != LWR {
            if |r.data| == 8 * e.len && 8 * (e.store + e.len) <= |image| {
              image := Overlay(image, 8 * e.store, r.data);
            }
            if e.dcoffset > 0 {
              total, clock := r.wkc, r.clock;
            } else {
              total := total + r.last;
            }
          } else {
            if e.dcoffset > 0 {
              total, clock := r.wkc * 2, r.clock;
            } else {
              total := total + r.last * 2;
            }
          }
          valid := true;
        }
      }
      stack, pulled := [], 0;
      wkc := if valid then total else EC_NOFRAME;
    }
  }
}
