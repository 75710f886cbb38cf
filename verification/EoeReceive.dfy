/** Putting Ethernet frames together from EoE fragments: ecx_EOEreadfragment, which keeps its state between
    mailboxes, and the blocking ecx_EOErecv. */
module EoeReceive {
  import opened Basics
  import opened Bytes
  import opened Segments
  import opened Eoe

  /** Receiver state: expected fragment, size of the frame, bytes so far, number of the frame; the buffer. */
  datatype Rx = Rx(fragNo: nat, size: nat, offset: nat, frameNo: nat, buf: seq<byte>)

  datatype Code = More | Last(size: nat) | InvalidData | PacketError

  predicate Valid(rx: Rx) {
    rx.fragNo < 0x100 && rx.size < 0x1_0000 && rx.offset < 0x1_0000 && rx.frameNo < 0x1_0000
  }

  function Reset(rx: Rx): Rx { Rx(0, 0, 0, 0, rx.buf) }

  /** Take the data if it stays inside `room`. */
  function Copy(rx: Rx, data: seq<byte>, room: nat): Rx
    requires room <= |rx.buf|
  {
    if rx.offset + |data| <= room
    then Rx((rx.fragNo + 1) % 0x100, rx.size, rx.offset + |data|, rx.frameNo, Overwrite(rx.buf, rx.offset, data))
    else rx
  }

  /** Size of a received frame: a timestamp at its end is removed, in 16 bits. */
  function ReceivedSize(offset: nat, info1: nat): nat {
    if IsStamped(info1) then (offset + 0xFFFC) % 0x1_0000 else offset
  }

  /** State before the data of a fragment is taken, or None if it does not fit. */
  function Accept(rx: Rx, f: Fragment): (Option<Rx>, Rx) {
    var frag, blocks, frame := FragNoOf(f.info2), BlocksOf(f.info2), FrameNoOf(f.info2);
    var rx1 := if rx.fragNo != frag && rx.fragNo != 0 then Reset(rx) else rx;
    if rx.fragNo != frag && frag > 0 then (None, rx1)
    else if rx1.fragNo == 0 then (Some(Rx(0, blocks * 32, 0, frame, rx.buf)), rx1)
    else if rx1.frameNo != frame || rx1.offset != blocks * 32 then (None, Reset(rx))
    else (Some(rx1), rx1)
  }

  /** ecx_EOEreadfragment with a buffer of `psize` bytes. */
  function ReadFragment(rx: Rx, f: Fragment, psize: nat): (r: (Rx, Code))
    requires psize <= |rx.buf|
    ensures |r.0.buf| == |rx.buf|
  {
    if f.mtype != ECT_MBXT_EOE then (rx, PacketError)
    else
      match Accept(rx, f)
      case (None, rejected) => (rejected, InvalidData)
      case (Some(rx1), _) =>
        var rx2 := Copy(rx1, f.data, if rx1.size < psize then rx1.size else psize);
        if IsLast(f.info1) then (Reset(rx2), Last(ReceivedSize(rx2.offset, f.info1))) else (rx2, More)
  }

  method CopyInto(buf: array<byte>, at: nat, data: seq<byte>)
    requires at + |data| <= buf.Length
    modifies buf
    ensures buf[..] == Overwrite(old(buf[..]), at, data)
  {
    forall i | 0 <= i < |data| {
      buf[at + i] := data[i];
    }
  }

  /** The variables a caller of ecx_EOEreadfragment keeps. */
  class Assembler {
    var rxfragmentno: nat
    var rxframesize: nat
    var rxframeoffset: nat
    var rxframeno: nat
    const buf: array<byte>

    constructor (buf: array<byte>)
      ensures this.buf == buf && rxfragmentno == rxframesize == rxframeoffset == rxframeno == 0
    {
      this.buf := buf;
      rxfragmentno, rxframesize, rxframeoffset, rxframeno := 0, 0, 0, 0;
    }

    ghost function Abs(): Rx
      reads this, buf
    {
      Rx(rxfragmentno, rxframesize, rxframeoffset, rxframeno, buf[..])
    }

    method ResetAll()
      modifies this
      ensures Abs() == Reset(old(Abs()))
    {
      rxfragmentno, rxframesize, rxframeoffset, rxframeno := 0, 0, 0, 0;
    }

    method Read(f: Fragment, psize: nat) returns (code: Code)
      requires psize <= buf.Length
      modifies this, buf
      ensures (Abs(), code) == ReadFragment(old(Abs()), f, psize)
    {
      code := More;
      if f.mtype != ECT_MBXT_EOE {
        return PacketError;
      }
      var frag := FragNoOf(f.info2);
      if rxfragmentno != frag {
        if rxfragmentno != 0 {
          ResetAll();
        }
        if frag > 0 {
          return InvalidData;
        }
      }
      if rxfragmentno == 0 {
        rxframesize, rxframeoffset, rxframeno := BlocksOf(f.info2) * 32, 0, FrameNoOf(f.info2);
      } else if rxframeno != FrameNoOf(f.info2) || rxframeoffset != BlocksOf(f.info2) * 32 {
        ResetAll();
        return InvalidData;
      }
      if rxframeoffset + |f.data| <= rxframesize && rxframeoffset + |f.data| <= psize {
        CopyInto(buf, rxframeoffset, f.data);
        rxframeoffset := rxframeoffset + |f.data|;
        rxfragmentno := (rxfragmentno + 1) % 0x100;
      }
      if IsLast(f.info1) {
        code := Last(ReceivedSize(rxframeoffset, f.info1));
        ResetAll();
      }
    }
  }

  // ----- fragments of one frame, from any state

  /** All codes for a sequence of mailboxes. */
  function Feed(rx: Rx, fragments: seq<Fragment>, psize: nat): (Rx, seq<Code>)
    requires psize <= |rx.buf|
    decreases |fragments|
  {
    if fragments == [] then (rx, [])
    else
      var (rx1, code) := ReadFragment(rx, fragments[0], psize);
      var (rx2, codes) := Feed(rx1, fragments[1..], psize);
      (rx2, [code] + codes)
  }

  const LARGEST := 63 * 32

  /** A frame some sender may send: its fragments are whole blocks except for the last. */
  predicate Sendable(f: Frame, lens: seq<nat>) {
    Sum(lens) <= |f.body| < 0x1_0000 && WholeBlocks(lens) && (f.stamped ==> |f.body| >= 4)
  }

  function PayloadSize(f: Frame): nat
    requires f.stamped ==> |f.body| >= 4
  {
    if f.stamped then |f.body| - 4 else |f.body|
  }

  /** The receiver is inside frame f: it has the first `off` bytes, in k fragments. */
  predicate Inside(rx: Rx, f: Frame, k: nat, off: nat) {
    && 0 < k <= off / 32 && off % 32 == 0 && off <= |f.body| && off <= |rx.buf|
    && rx == Rx(k, Blocks(|f.body|) * 32, off, f.no % 0x10, rx.buf) && rx.buf[..off] == f.body[..off]
  }

  /** The receiver is done with frame f. */
  predicate Done(rx: Rx, f: Frame) {
    rx == Reset(rx) && |f.body| <= |rx.buf| && rx.buf[..|f.body|] == f.body
  }

  lemma Appended(buf: seq<byte>, body: seq<byte>, off: nat, n: nat)
    requires off + n <= |body| && off + n <= |buf| && buf[..off] == body[..off]
    ensures Overwrite(buf, off, body[off..off + n])[..off + n] == body[..off + n]
  {
  }

  lemma FirstFits(f: Frame, off: nat, n: nat)
    requires off + n <= |f.body|
    ensures off + n <= Blocks(|f.body|) * 32
  {
  }

  /** What a receiver reads from a fragment of frame f. */
  predicate Reads(g: Fragment, f: Frame, k: nat, off: nat, n: nat, last: bool)
    requires off + n <= |f.body|
  {
    && g.mtype == ECT_MBXT_EOE && FragNoOf(g.info2) == k % 0x40 && FrameNoOf(g.info2) == f.no % 0x10
    && BlocksOf(g.info2) == (if k > 0 then off / 32 else Blocks(|f.body|)) % 0x40
    && PortOf(g.info1) == f.port % 0x10 && IsLast(g.info1) == last && IsStamped(g.info1) == (last && f.stamped)
    && g.data == f.body[off..off + n]
  }

  lemma FragmentReads(f: Frame, k: nat, off: nat, n: nat, last: bool)
    requires off + n <= |f.body|
    ensures Reads(FragmentAt(f, k, off, n, last), f, k, off, n, last)
  {
    Info1Read(f.port, last, last && f.stamped);
    Info2Read(k, if k > 0 then off / 32 else Blocks(|f.body|), f.no);
  }

  /** The receiver is about to copy the next fragment of frame f. */
  predicate Ready(rx: Rx, f: Frame, k: nat, off: nat) {
    && k <= off / 32 && off % 32 == 0 && off <= |f.body| && off <= |rx.buf|
    && rx == Rx(k, Blocks(|f.body|) * 32, off, f.no % 0x10, rx.buf) && rx.buf[..off] == f.body[..off]
  }

  /** A fragment is accepted, whether it starts the frame from any state or continues it. */
  lemma Accepted(rx: Rx, g: Fragment, f: Frame, k: nat, off: nat, n: nat, last: bool)
    requires off + n <= |f.body| <= LARGEST && Reads(g, f, k, off, n, last)
             && if k == 0 then off == 0 else Inside(rx, f, k, off)
    ensures Accept(rx, g).0.Some? && var rx1 := Accept(rx, g).0.value; Ready(rx1, f, k, off) && rx1.buf == rx.buf
  {
    if k > 0 { SmallNumbers(k, off, f); }
  }

  /** Fragment number and offset fit their fields. */
  lemma SmallNumbers(k: nat, off: nat, f: Frame)
    requires 0 < k <= off / 32 && off % 32 == 0 && off <= |f.body| <= LARGEST
    ensures k % 0x40 == k && off / 32 % 0x40 == off / 32 && off / 32 * 32 == off
  {
  }

  /** Its data are copied behind what is there. */
  lemma Copied(rx: Rx, f: Frame, k: nat, off: nat, n: nat, room: nat)
    requires off + n <= |f.body| <= LARGEST && Ready(rx, f, k, off) && off + n <= room <= |rx.buf|
    ensures var rx' := Copy(rx, f.body[off..off + n], room);
      && |rx'.buf| == |rx.buf| && rx'.offset == off + n && rx'.buf[..off + n] == f.body[..off + n]
      && (n % 32 == 0 && n > 0 ==> Inside(rx', f, k + 1, off + n))
  {
    Appended(rx.buf, f.body, off, n);
  }

  /** A fragment is taken. */
  lemma FragmentTaken(rx: Rx, g: Fragment, f: Frame, k: nat, off: nat, n: nat, last: bool, psize: nat)
    requires off + n <= |f.body| <= LARGEST && |f.body| <= psize <= |rx.buf| && (f.stamped ==> |f.body| >= 4)
    requires Reads(g, f, k, off, n, last) && if k == 0 then off == 0 else Inside(rx, f, k, off)
    requires if last then off + n == |f.body| else n % 32 == 0 && n > 0
    ensures var (rx', code) := ReadFragment(rx, g, psize);
      |rx'.buf| == |rx.buf|
        && if last then Done(rx', f) && code == Last(PayloadSize(f)) else Inside(rx', f, k + 1, off + n) && code == More
  {
    Accepted(rx, g, f, k, off, n, last);
    FirstFits(f, off, n);
    Copied(Accept(rx, g).0.value, f, k, off, n, Min(Blocks(|f.body|) * 32, psize));
  }

  function Mores(n: nat): seq<Code> { if n == 0 then [] else [More] + Mores(n - 1) }

  lemma MoreFirst(n: nat, c: Code)
    requires n > 0
    ensures Mores(n) + [c] == [More] + (Mores(n - 1) + [c])
  {
  }

  /** The fragments of frame f from the k-th on come first: as long as `lens` tells, and one with the rest. */
  predicate Begins(fs: seq<Fragment>, f: Frame, lens: seq<nat>, k: nat, off: nat)
    requires off + Sum(lens) <= |f.body|
    decreases |lens|
  {
    fs != [] &&
    if lens == [] then Reads(fs[0], f, k, off, |f.body| - off, true)
    else Reads(fs[0], f, k, off, lens[0], false) && Begins(fs[1..], f, lens[1..], k + 1, off + lens[0])
  }

  lemma {:induction false} FragmentsBegin(f: Frame, lens: seq<nat>, k: nat, off: nat, later: seq<Fragment>)
    requires off + Sum(lens) <= |f.body|
    ensures Begins(Fragments(f, lens, k, off) + later, f, lens, k, off) && |Fragments(f, lens, k, off)| == |lens| + 1
    decreases |lens|
  {
    var n, last := if lens == [] then |f.body| - off else lens[0], lens == [];
    FragmentReads(f, k, off, n, last);
    if !last {
      FragmentsBegin(f, lens[1..], k + 1, off + n, later);
      assert (Fragments(f, lens, k, off) + later)[1..] == Fragments(f, lens[1..], k + 1, off + n) + later;
    }
  }

  lemma {:induction false} FeedsFrame(rx: Rx, f: Frame, lens: seq<nat>, k: nat, off: nat, psize: nat, fs: seq<Fragment>)
    requires Sum(lens) + off <= |f.body| <= LARGEST && WholeBlocks(lens) && |f.body| <= psize <= |rx.buf|
    requires (f.stamped ==> |f.body| >= 4) && if k == 0 then off == 0 else Inside(rx, f, k, off)
    requires Begins(fs, f, lens, k, off) && |fs| == |lens| + 1
    ensures var (rx', codes) := Feed(rx, fs, psize);
      Done(rx', f) && codes == Mores(|lens|) + [Last(PayloadSize(f))]
    decreases |lens|
  {
    var n, last := if lens == [] then |f.body| - off else lens[0], lens == [];
    FragmentTaken(rx, fs[0], f, k, off, n, last, psize);
    if !last {
      FeedsFrame(ReadFragment(rx, fs[0], psize).0, f, lens[1..], k + 1, off + n, psize, fs[1..]);
      MoreFirst(|lens|, Last(PayloadSize(f)));
    }
  }

  predicate Small(rx: Rx) { rx.size <= LARGEST && rx.offset <= LARGEST }

  /** No state behind a first fragment holds more than the largest size a header can tell, so a larger
      frame is never reported. */
  lemma NeverMore(rx: Rx, g: Fragment, f: Frame, k: nat, off: nat, n: nat, last: bool, psize: nat)
    requires psize <= |rx.buf| && off + n <= |f.body| && LARGEST < |f.body| < 0x1_0000 && (f.stamped ==> |f.body| >= 4)
    requires Reads(g, f, k, off, n, last) && (k > 0 ==> Small(rx))
    ensures var (rx', code) := ReadFragment(rx, g, psize); Small(rx') && (last ==> code != Last(PayloadSize(f)))
  {
    match Accept(rx, g).0
    case None =>
    case Some(rx1) =>
      assert Small(rx1);
      assert Small(Copy(rx1, g.data, Min(rx1.size, psize)));
  }

  lemma {:induction false} FeedCounts(rx: Rx, fragments: seq<Fragment>, psize: nat)
    requires psize <= |rx.buf|
    ensures |Feed(rx, fragments, psize).1| == |fragments|
    decreases |fragments|
  {
    if fragments != [] { FeedCounts(ReadFragment(rx, fragments[0], psize).0, fragments[1..], psize); }
  }

  lemma {:induction false} FeedsTooLong(rx: Rx, f: Frame, lens: seq<nat>, k: nat, off: nat, psize: nat,
                                        fs: seq<Fragment>)
    requires Sum(lens) + off <= |f.body| && LARGEST < |f.body| < 0x1_0000 && |f.body| <= psize <= |rx.buf|
    requires (k > 0 ==> Small(rx)) && Begins(fs, f, lens, k, off) && |fs| == |lens| + 1 && (f.stamped ==> |f.body| >= 4)
    ensures var codes := Feed(rx, fs, psize).1;
      |codes| == |lens| + 1 && codes[|lens|] != Last(PayloadSize(f))
    decreases |lens|
  {
    var n, last := if lens == [] then |f.body| - off else lens[0], lens == [];
    NeverMore(rx, fs[0], f, k, off, n, last, psize);
    if !last { FeedsTooLong(ReadFragment(rx, fs[0], psize).0, f, lens[1..], k + 1, off + n, psize, fs[1..]); }
  }

  /** Self-synchronisation: from any state left by lost or garbled fragments, the fragments of a frame
      are put together to it if and only if the frame has at most 2016 bytes; up to then every fragment
      but the last asks for more, and afterwards the state is clean. */
  lemma Reassembles(rx: Rx, f: Frame, lens: seq<nat>, psize: nat)
    requires Sendable(f, lens) && |f.body| <= psize <= |rx.buf|
    ensures var (rx', codes) := Feed(rx, Fragments(f, lens, 0, 0), psize);
      && |codes| == |lens| + 1
      && (codes[|lens|] == Last(PayloadSize(f)) <==> |f.body| <= LARGEST)
      && (|f.body| <= LARGEST ==> Done(rx', f) && codes == Mores(|lens|) + [Last(PayloadSize(f))])
  {
    var fs := Fragments(f, lens, 0, 0);
    FragmentsBegin(f, lens, 0, 0, []);
    assert fs + [] == fs;
    PutTogether(rx, f, lens, psize, fs);
  }

  lemma PutTogether(rx: Rx, f: Frame, lens: seq<nat>, psize: nat, fs: seq<Fragment>)
    requires Sendable(f, lens) && |f.body| <= psize <= |rx.buf| && Begins(fs, f, lens, 0, 0) && |fs| == |lens| + 1
    ensures var (rx', codes) := Feed(rx, fs, psize);
      && |codes| == |lens| + 1
      && (codes[|lens|] == Last(PayloadSize(f)) <==> |f.body| <= LARGEST)
      && (|f.body| <= LARGEST ==> Done(rx', f) && codes == Mores(|lens|) + [Last(PayloadSize(f))])
  {
    FeedCounts(rx, fs, psize);
    if |f.body| <= LARGEST {
      FeedsFrame(rx, f, lens, 0, 0, psize, fs);
    } else {
      FeedsTooLong(rx, f, lens, 0, 0, psize, fs);
    }
  }

  // ----- the blocking receiver

  datatype Outcome = Received(size: nat) | NoMail | Invalid | Unexpected

  /** The fragment does not continue what the receiver has; the first must announce a frame that fits
      and be for the right port. */
  predicate Refused(rx: Rx, f: Fragment, port: nat, buffersize: nat) {
    var frag, blocks := FragNoOf(f.info2), BlocksOf(f.info2);
    || (rx.fragNo != frag && frag > 0)
    || if rx.fragNo == 0 then blocks * 32 > buffersize || port != PortOf(f.info1)
       else rx.frameNo != FrameNoOf(f.info2) || rx.offset != blocks * 32
  }

  function Started(rx: Rx, f: Fragment): Rx {
    if rx.fragNo == 0 then Rx(0, BlocksOf(f.info2) * 32, 0, FrameNoOf(f.info2), rx.buf) else rx
  }

  /** ecx_EOErecv on the mailboxes that come in; the result and the buffer. */
  function Recv(rx: Rx, incoming: seq<Fragment>, port: nat): (Outcome, seq<byte>)
    decreases |incoming|
  {
    if incoming == [] then (NoMail, rx.buf)
    else
      var f := incoming[0];
      if f.mtype != ECT_MBXT_EOE then (Unexpected, rx.buf)
      else if Refused(rx, f, port, |rx.buf|) then (Invalid, rx.buf)
      else
        var rx' := Copy(Started(rx, f), f.data, |rx.buf|);
        if IsLast(f.info1) then (Received(ReceivedSize(rx'.offset, f.info1)), rx'.buf)
        else Recv(rx', incoming[1..], port)
  }

  method EoeRecv(incoming: seq<Fragment>, port: nat, buf: array<byte>) returns (outcome: Outcome)
    modifies buf
    ensures (outcome, buf[..]) == Recv(Rx(0, 0, 0, 0, old(buf[..])), incoming, port)
  {
    var fragNo: nat, size: nat, offset: nat, frameNo: nat, k, notLast := 0, 0, 0, 0, 0, true;
    outcome := NoMail;
    ghost var all := Recv(Rx(0, 0, 0, 0, buf[..]), incoming, port);
    while notLast && k < |incoming|
      invariant k <= |incoming|
      invariant if notLast
                then outcome == NoMail && all == Recv(Rx(fragNo, size, offset, frameNo, buf[..]), incoming[k..], port)
                else all == (outcome, buf[..])
    {
      var f := incoming[k];
      assert incoming[k..][1..] == incoming[k + 1..];
      if f.mtype != ECT_MBXT_EOE {
        return Unexpected;
      }
      var frag := FragNoOf(f.info2);
      if fragNo != frag && frag > 0 {
        return Invalid;
      }
      if fragNo == 0 {
        if BlocksOf(f.info2) * 32 > buf.Length || port != PortOf(f.info1) {
          return Invalid;
        }
        size, offset, frameNo := BlocksOf(f.info2) * 32, 0, FrameNoOf(f.info2);
      } else if frameNo != FrameNoOf(f.info2) || offset != BlocksOf(f.info2) * 32 {
        return Invalid;
      }
      if offset + |f.data| <= buf.Length {
        CopyInto(buf, offset, f.data);
        offset := offset + |f.data|;
        fragNo := (fragNo + 1) % 0x100;
      }
      if IsLast(f.info1) {
        notLast := false;
        outcome := Received(ReceivedSize(offset, f.info1));
      } else {
        k := k + 1;
      }
    }
  }

  lemma StartedReady(rx: Rx, g: Fragment, f: Frame, k: nat, off: nat, n: nat, last: bool, port: nat)
    requires off + n <= |f.body| <= LARGEST && Blocks(|f.body|) * 32 <= |rx.buf| && port == f.port % 0x10
    requires Reads(g, f, k, off, n, last) && if k == 0 then off == 0 && rx.fragNo == 0 else Inside(rx, f, k, off)
    ensures Ready(Started(rx, g), f, k, off) && Started(rx, g).buf == rx.buf && !Refused(rx, g, port, |rx.buf|)
  {
    if k > 0 { SmallNumbers(k, off, f); }
  }

  /** The receiver of one frame takes a fragment. */
  lemma FragmentReceived(rx: Rx, g: Fragment, f: Frame, k: nat, off: nat, n: nat, last: bool, port: nat)
    requires off + n <= |f.body| <= LARGEST && Blocks(|f.body|) * 32 <= |rx.buf| && port == f.port % 0x10
    requires Reads(g, f, k, off, n, last) && if k == 0 then off == 0 && rx.fragNo == 0 else Inside(rx, f, k, off)
    requires if last then off + n == |f.body| else n % 32 == 0 && n > 0
    ensures var rx' := Copy(Started(rx, g), g.data, |rx.buf|);
      && !Refused(rx, g, port, |rx.buf|) && rx'.offset == off + n && |rx'.buf| == |rx.buf|
         && rx'.buf[..off + n] == f.body[..off + n]
      && (!last ==> Inside(rx', f, k + 1, off + n))
  {
    StartedReady(rx, g, f, k, off, n, last, port);
    FirstFits(f, off, n);
    Copied(Started(rx, g), f, k, off, n, |rx.buf|);
  }

  lemma {:induction false} ReceivesFrame(rx: Rx, f: Frame, lens: seq<nat>, k: nat, off: nat, port: nat,
                                         fs: seq<Fragment>)
    requires Sum(lens) + off <= |f.body| <= LARGEST && WholeBlocks(lens) && (f.stamped ==> |f.body| >= 4)
    requires Blocks(|f.body|) * 32 <= |rx.buf| && port == f.port % 0x10
    requires if k == 0 then off == 0 && rx.fragNo == 0 else Inside(rx, f, k, off)
    requires Begins(fs, f, lens, k, off)
    ensures var (outcome, buf) := Recv(rx, fs, port);
      outcome == Received(PayloadSize(f)) && |buf| == |rx.buf| && buf[..|f.body|] == f.body
    decreases |lens|
  {
    var n, last := if lens == [] then |f.body| - off else lens[0], lens == [];
    FragmentReceived(rx, fs[0], f, k, off, n, last, port);
    if !last {
      ReceivesFrame(Copy(Started(rx, fs[0]), fs[0].data, |rx.buf|), f, lens[1..], k + 1, off + n, port, fs[1..]);
    }
  }

  /** The first fragment is refused if its frame does not fit the buffer. */
  lemma FirstRefused(f: Frame, lens: seq<nat>, buf: seq<byte>, fs: seq<Fragment>)
    requires Sendable(f, lens) && |f.body| <= LARGEST && Blocks(|f.body|) * 32 > |buf| && Begins(fs, f, lens, 0, 0)
    ensures Recv(Rx(0, 0, 0, 0, buf), fs, f.port % 0x10) == (Invalid, buf)
  {
    assert Blocks(|f.body|) % 0x40 == Blocks(|f.body|);
  }

  /** The blocking receiver returns a frame of at most 2016 bytes exactly if its buffer holds the frame
      rounded up to whole blocks; else it refuses the first fragment. */
  lemma RecvReturns(f: Frame, lens: seq<nat>, buf: seq<byte>, later: seq<Fragment>)
    requires Sendable(f, lens) && |f.body| <= LARGEST
    ensures var (outcome, buf') := Recv(Rx(0, 0, 0, 0, buf), Fragments(f, lens, 0, 0) + later, f.port % 0x10);
      if Blocks(|f.body|) * 32 <= |buf|
      then outcome == Received(PayloadSize(f)) && |f.body| <= |buf'| && buf'[..|f.body|] == f.body
      else outcome == Invalid && buf' == buf
  {
    var fs := Fragments(f, lens, 0, 0) + later;
    FragmentsBegin(f, lens, 0, 0, later);
    if Blocks(|f.body|) * 32 <= |buf| {
      ReceivesFrame(Rx(0, 0, 0, 0, buf), f, lens, 0, 0, f.port % 0x10, fs);
    } else {
      FirstRefused(f, lens, buf, fs);
    }
  }

  /** Sending that reports success for a frame of at most 2016 bytes has sent all its fragments. */
  lemma SentAll(taken: nat -> bool, port: nat, p: seq<byte>, mbxl: nat, frameNo: nat, rounds: nat, r: Sending)
    returns (f: Frame, lens: seq<nat>)
    requires mbxl >= 10 && |p| <= LARGEST && r == SendRun(taken, port, p, mbxl, frameNo, rounds) && r.done && r.ok
    ensures f == Frame(p, port, (frameNo + 1) % 0x100, false) && Sum(lens) <= |p| && WholeBlocks(lens)
            && r.log == Fragments(f, lens, 0, 0)
  {
    SendDone(taken, port, p, mbxl, frameNo, rounds, r);
    f, lens := Frame(p, port, (frameNo + 1) % 0x100, false), SendLens(|p|, mbxl - 10);
    BlocksCount(lens);
    NumberedPlain(Frame(p, port, frameNo, false), lens, 0, 0);
  }

  /** What ecx_EOEsend sends is put together again by ecx_EOEreadfragment, from any state. */
  lemma SendThenReassemble(taken: nat -> bool, port: nat, p: seq<byte>, mbxl: nat, frameNo: nat, rounds: nat, rx: Rx,
                           psize: nat)
    requires mbxl >= 10 && |p| <= LARGEST && |p| <= psize <= |rx.buf|
    requires SendRun(taken, port, p, mbxl, frameNo, rounds).done && SendRun(taken, port, p, mbxl, frameNo, rounds).ok
    ensures var (rx', codes) := Feed(rx, SendRun(taken, port, p, mbxl, frameNo, rounds).log, psize);
      Done(rx', Frame(p, port, (frameNo + 1) % 0x100, false)) && |codes| > 0 && codes[|codes| - 1] == Last(|p|)
  {
    var f, lens := SentAll(taken, port, p, mbxl, frameNo, rounds, SendRun(taken, port, p, mbxl, frameNo, rounds));
    Reassembles(rx, f, lens, psize);
  }

  /** And by ecx_EOErecv, with a buffer of whole blocks. */
  lemma SendThenReceive(taken: nat -> bool, port: nat, p: seq<byte>, mbxl: nat, frameNo: nat, rounds: nat,
                        buf: seq<byte>)
    requires mbxl >= 10 && |p| <= LARGEST && port < 0x10 && Blocks(|p|) * 32 <= |buf|
    requires SendRun(taken, port, p, mbxl, frameNo, rounds).done && SendRun(taken, port, p, mbxl, frameNo, rounds).ok
    ensures var (outcome, buf') := Recv(Rx(0, 0, 0, 0, buf), SendRun(taken, port, p, mbxl, frameNo, rounds).log, port);
      outcome == Received(|p|) && |p| <= |buf'| && buf'[..|p|] == p
  {
    var r := SendRun(taken, port, p, mbxl, frameNo, rounds);
    var f, lens := SentAll(taken, port, p, mbxl, frameNo, rounds, r);
    FrameReturns(f, lens, port, buf, r.log);
  }

  lemma FrameReturns(f: Frame, lens: seq<nat>, port: nat, buf: seq<byte>, log: seq<Fragment>)
    requires Sendable(f, lens) && |f.body| <= LARGEST && Blocks(|f.body|) * 32 <= |buf|
             && log == Fragments(f, lens, 0, 0)
    requires port == f.port < 0x10 && !f.stamped
    ensures var (outcome, buf') := Recv(Rx(0, 0, 0, 0, buf), log, port);
      outcome == Received(|f.body|) && |f.body| <= |buf'| && buf'[..|f.body|] == f.body
  {
    assert log + [] == log;
    RecvReturns(f, lens, buf, []);
  }

  /** ecx_EOEsend to a port of which everything is taken, watched for a round for each block and one more, then
      ecx_EOErecv. */
  method SendAndReceive(port: nat, p: seq<byte>, mbxl: nat, frameNo: nat, buf: array<byte>, rounds: nat)
    returns (sent: Sending, outcome: Outcome)
    requires 10 <= mbxl < 0x1_0000 && Fragmentable(|p|, mbxl - 10) && |p| <= LARGEST && port < 0x10 && frameNo < 0x100
    requires Blocks(|p|) * 32 <= buf.Length && rounds > Blocks(|p|)
    modifies buf
    ensures sent.done && sent.ok && outcome == Received(|p|) && |p| <= buf.Length && buf[..|p|] == p
  {
    sent := EoeSend(_ => true, port, p, mbxl, frameNo, rounds);
    SendDone(_ => true, port, p, mbxl, frameNo, rounds, sent);
    BlocksCount(SendLens(|p|, mbxl - 10));
    SendThenReceive(_ => true, port, p, mbxl, frameNo, rounds, buf[..]);
    outcome := EoeRecv(sent.log, port, buf);
  }
}
