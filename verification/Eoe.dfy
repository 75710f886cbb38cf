/** Ethernet over EtherCAT (ecx_EOEsend, ecx_EOErecv, ecx_EOEreadfragment; section 5.7 of ETG.1000.6):
    frames are cut into fragments and put together again. */
module Eoe {
  import opened Bytes
  import opened Segments

  const ECT_MBXT_EOE := 2

  /** A mailbox message: its type, the two header words, the data. */
  datatype Fragment = Fragment(mtype: nat, info1: nat, info2: nat, data: seq<byte>)

  // ----- the header words

  function Info1(port: nat, last: bool, stamped: bool): nat {
    port % 0x10 * 0x10 + (if last then 0x100 else 0) + if stamped then 0x200 else 0
  }

  function PortOf(info1: nat): nat { info1 / 0x10 % 0x10 }
  predicate IsLast(info1: nat) { info1 / 0x100 % 2 == 1 }
  predicate IsStamped(info1: nat) { info1 / 0x200 % 2 == 1 }

  /** `blocks` counts 32 bytes: the size of the frame in its first fragment, else the offset. */
  function Info2(fragNo: nat, blocks: nat, frameNo: nat): nat {
    fragNo % 0x40 + blocks % 0x40 * 0x40 + frameNo % 0x10 * 0x1000
  }

  function FragNoOf(info2: nat): nat { info2 % 0x40 }
  function BlocksOf(info2: nat): nat { info2 / 0x40 % 0x40 }
  function FrameNoOf(info2: nat): nat { info2 / 0x1000 % 0x10 }

  lemma Info1Read(port: nat, last: bool, stamped: bool)
    ensures var w := Info1(port, last, stamped);
      PortOf(w) == port % 0x10 && IsLast(w) == last && IsStamped(w) == stamped
  {
  }

  lemma Info2Read(fragNo: nat, blocks: nat, frameNo: nat)
    ensures var w := Info2(fragNo, blocks, frameNo);
      FragNoOf(w) == fragNo % 0x40 && BlocksOf(w) == blocks % 0x40 && FrameNoOf(w) == frameNo % 0x10
  {
  }

  // ----- a frame in fragments

  function Blocks(size: nat): nat { (size + 31) / 32 }

  predicate WholeBlocks(lens: seq<nat>) {
    forall k :: 0 <= k < |lens| ==> lens[k] % 32 == 0 && lens[k] > 0
  }

  /** What is sent of one frame: where it goes and how it is numbered. */
  datatype Frame = Frame(body: seq<byte>, port: nat, no: nat, stamped: bool)

  /** A fragment of frame f: the k-th, with n bytes from offset `off` on. */
  function FragmentAt(f: Frame, k: nat, off: nat, n: nat, last: bool): Fragment
    requires off + n <= |f.body|
  {
    Fragment(ECT_MBXT_EOE, Info1(f.port, last, last && f.stamped),
             Info2(k, if k > 0 then off / 32 else Blocks(|f.body|), f.no),
             f.body[off..off + n])
  }

  /** The fragments from the k-th on: as long as `lens` tells, and one with the rest. */
  function Fragments(f: Frame, lens: seq<nat>, k: nat, off: nat): seq<Fragment>
    requires off + Sum(lens) <= |f.body|
    decreases |lens|
  {
    if lens == [] then [FragmentAt(f, k, off, |f.body| - off, true)]
    else [FragmentAt(f, k, off, lens[0], false)] + Fragments(f, lens[1..], k + 1, off + lens[0])
  }

  // ----- sending

  /** Fragment lengths of a sender: the largest multiple of 32 until the rest fits. */
  function SendLens(size: nat, maxdata: nat): (lens: seq<nat>)
    requires maxdata >= 32 || size <= maxdata
    ensures Sum(lens) <= size && WholeBlocks(lens)
    decreases size
  {
    if size <= maxdata then [] else [maxdata / 32 * 32] + SendLens(size - maxdata / 32 * 32, maxdata)
  }

  /** The slave took the first n fragments. */
  predicate Took(taken: nat -> bool, n: nat) {
    n == 0 || (taken(n - 1) && Took(taken, n - 1))
  }

  /** What was sent of `all`: a beginning, up to the first fragment the slave did not take. */
  predicate Sent(taken: nat -> bool, all: seq<Fragment>, log: seq<Fragment>, ok: bool) {
    && 1 <= |log| <= |all| && log == all[..|log|] && Took(taken, |log| - 1)
    && (|log| < |all| ==> !taken(|log| - 1)) && (ok <==> |log| == |all| && taken(|log| - 1))
  }

  /** The last fragment, or one that is not taken, ends sending. */
  lemma SentUpTo(taken: nat -> bool, log: seq<Fragment>, next: Fragment, later: seq<Fragment>, left: seq<Fragment>,
                 all: seq<Fragment>)
    requires Took(taken, |log|) && left == [next] + later && all == log + left && (later == [] || !taken(|log|))
    ensures Sent(taken, all, log + [next], taken(|log|))
  {
    assert all[..|log| + 1] == log + [next];
  }

  lemma TookOneMore(taken: nat -> bool, log: seq<Fragment>, next: Fragment, later: seq<Fragment>, left: seq<Fragment>,
                    all: seq<Fragment>, log': seq<Fragment>)
    requires Took(taken, |log|) && left == [next] + later && all == log + left && taken(|log|) && log' == log + [next]
    ensures Took(taken, |log'|) && all == log' + later
  {
  }

  /** How sending ended, or how far it came: the result of the last mailbox write, what was sent, the frame
      number; `done` is false while the loop still runs. */
  datatype Sending = Sending(ok: bool, log: seq<Fragment>, frameNo: nat, done: bool)

  /** Length of the next fragment: what is left, in 16 bits, or the whole blocks that the mailbox holds. */
  function NextSize(rest: nat, maxdata: nat): (size: nat)
    ensures size <= rest
  {
    var size := rest % 0x1_0000;
    if size > maxdata then maxdata / 32 * 32 else size
  }

  /** The frame number has 8 bits, and is raised by a fragment with the number 0. */
  function Renumbered(f: Frame, fragNo: nat): Frame { if fragNo == 0 then f.(no := (f.no + 1) % 0x100) else f }

  /** The sending loop, watched for a number of rounds. `f.no` is the number of the frame before; the
      fragment counter has 8 bits and the offset 16. */
  function SendFrom(taken: nat -> bool, f: Frame, maxdata: nat, fragNo: nat, offset: nat, log: seq<Fragment>,
                    rounds: nat): Sending
    requires offset <= |f.body|
    decreases rounds
  {
    if rounds == 0 then Sending(false, log, f.no, false)
    else
      var rest, f' := |f.body| - offset, Renumbered(f, fragNo);
      var size := NextSize(rest, maxdata);
      var log' := log + [FragmentAt(f', fragNo, offset, size, size == rest)];
      if size < rest && taken(|log|)
      then SendFrom(taken, f', maxdata, (fragNo + 1) % 0x100, (offset + size) % 0x1_0000, log', rounds - 1)
      else Sending(taken(|log|), log', f'.no, true)
  }

  /** A whole frame p to a slave with a mailbox of mbxl bytes. */
  function SendRun(taken: nat -> bool, port: nat, p: seq<byte>, mbxl: nat, frameNo: nat, rounds: nat): Sending
    requires mbxl >= 10
  {
    SendFrom(taken, Frame(p, port, frameNo, false), mbxl - 10, 0, 0, [], rounds)
  }

  /** r is how the loop ends from here on. */
  predicate Yields(taken: nat -> bool, f: Frame, maxdata: nat, fragNo: nat, offset: nat, log: seq<Fragment>,
                   rounds: nat, r: Sending) {
    offset <= |f.body| && r == SendFrom(taken, f, maxdata, fragNo, offset, log, rounds)
  }

  lemma SendRound(taken: nat -> bool, f: Frame, maxdata: nat, fragNo: nat, offset: nat, log: seq<Fragment>, rounds: nat,
                  f': Frame, size: nat, next: Fragment)
    requires offset <= |f.body| && rounds > 0 && f' == Renumbered(f, fragNo)
             && size == NextSize(|f.body| - offset, maxdata)
    requires next == FragmentAt(f', fragNo, offset, size, size == |f.body| - offset)
    ensures SendFrom(taken, f, maxdata, fragNo, offset, log, rounds)
            == if size < |f.body| - offset && taken(|log|)
               then SendFrom(taken, f', maxdata, (fragNo + 1) % 0x100, (offset + size) % 0x1_0000, log + [next],
                             rounds - 1)
               else Sending(taken(|log|), log + [next], f'.no, true)
  {
  }

  /** One fragment. */
  method NextFragment(f: Frame, maxdata: nat, fragNo: nat, offset: nat)
    returns (next: Fragment, f': Frame, size: nat, last: bool)
    requires offset <= |f.body| && !f.stamped
    ensures f' == Renumbered(f, fragNo) && size == NextSize(|f.body| - offset, maxdata)
            && (last <==> size == |f.body| - offset)
    ensures next == FragmentAt(f', fragNo, offset, size, last)
  {
    size := (|f.body| - offset) % 0x1_0000;
    if size > maxdata {
      size := maxdata / 32 * 32;
    }
    last := size == |f.body| - offset;
    f' := f;
    var blocks := offset / 32;
    if fragNo == 0 {
      blocks := Blocks(|f.body|);
      f' := f.(no := (f.no + 1) % 0x100);
    }
    next := Fragment(ECT_MBXT_EOE, Info1(f.port, last, false), Info2(fragNo, blocks, f'.no),
                     f.body[offset..offset + size]);
  }

  /** ecx_EOEsend. `taken` tells for each fragment whether the slave took it; sending stops at the first
      it does not. `frameNo` is the number of the frame before. */
  method EoeSend(taken: nat -> bool, port: nat, p: seq<byte>, mbxl: nat, frameNo: nat, rounds: nat) returns (r: Sending)
    requires 10 <= mbxl < 0x1_0000 && frameNo < 0x100
    ensures r == SendRun(taken, port, p, mbxl, frameNo, rounds)
  {
    var f := Frame(p, port, frameNo, false);
    var fragNo: nat, offset: nat, log, k: nat := 0, 0, [], rounds;
    ghost var goal := SendRun(taken, port, p, mbxl, frameNo, rounds);
    var notLast, ok := true, true;
    while notLast && ok && k > 0
      invariant !f.stamped && (notLast && ok ==> Yields(taken, f, mbxl - 10, fragNo, offset, log, k, goal))
      invariant !(notLast && ok) ==> goal == Sending(ok, log, f.no, true)
    {
      var next, f', size, last := NextFragment(f, mbxl - 10, fragNo, offset);
      SendRound(taken, f, mbxl - 10, fragNo, offset, log, k, f', size, next);
      notLast, ok := !last, taken(|log|);
      if notLast && ok {
        offset := (offset + size) % 0x1_0000;
        fragNo := (fragNo + 1) % 0x100;
      }
      f, log, k := f', log + [next], k - 1;
    }
    r := if notLast && ok then Sending(false, log, f.no, false) else Sending(ok, log, f.no, true);
  }

  // ----- what is sent

  /** The fragments as they are numbered: like Fragments, with counters that wrap. */
  function Numbered(f: Frame, lens: seq<nat>, fragNo: nat, off: nat): seq<Fragment>
    requires off + Sum(lens) <= |f.body|
    decreases |lens|
  {
    var f' := Renumbered(f, fragNo);
    if lens == [] then [FragmentAt(f', fragNo, off, |f.body| - off, true)]
    else [FragmentAt(f', fragNo, off, lens[0], false)] + Numbered(f', lens[1..], (fragNo + 1) % 0x100, off + lens[0])
  }

  /** Up to 256 fragments carry one frame number, and count from 0. */
  lemma {:induction false} NumberedPlain(f: Frame, lens: seq<nat>, fragNo: nat, off: nat)
    requires off + Sum(lens) <= |f.body| && fragNo + |lens| < 0x100
    ensures Numbered(f, lens, fragNo, off) == Fragments(Renumbered(f, fragNo), lens, fragNo, off)
    decreases |lens|
  {
    if lens != [] {
      var f' := Renumbered(f, fragNo);
      NumberedStep(f, lens, fragNo, off);
      NumberedPlain(f', lens[1..], fragNo + 1, off + lens[0]);
      assert Renumbered(f', fragNo + 1) == f' && (fragNo + 1) % 0x100 == fragNo + 1;
      assert Fragments(f', lens, fragNo, off)
          == [FragmentAt(f', fragNo, off, lens[0], false)] + Fragments(f', lens[1..], fragNo + 1, off + lens[0]);
    }
  }

  /** Fragments of whole blocks are not more than the blocks of the frame. */
  lemma {:induction false} BlocksCount(lens: seq<nat>)
    requires WholeBlocks(lens)
    ensures 32 * |lens| <= Sum(lens)
  {
    if lens != [] {
      assert lens[0] >= 32 by { assert lens[0] % 32 == 0 && lens[0] > 0; }
      assert forall k :: 0 <= k < |lens[1..]| ==> lens[1..][k] == lens[k + 1];
      BlocksCount(lens[1..]);
    }
  }

  /** A frame of this size comes to an end in fragments of at most maxdata bytes: its size has 16 bits, and the
      mailbox holds a block of 32 bytes or the whole frame. */
  predicate Fragmentable(size: nat, maxdata: nat) {
    size < 0x1_0000 && (maxdata >= 32 || size <= maxdata)
  }

  predicate NotTaken(taken: nat -> bool, k: nat) { !taken(k) }

  /** One of the next fragments is not taken. */
  predicate Rejected(taken: nat -> bool, from: nat, rounds: nat) {
    exists k :: from <= k < from + rounds && NotTaken(taken, k)
  }

  lemma RejectedNext(taken: nat -> bool, from: nat, rounds: nat)
    requires rounds > 0
    ensures Rejected(taken, from, rounds) <==> !taken(from) || Rejected(taken, from + 1, rounds - 1)
  {
    if !taken(from) { assert NotTaken(taken, from); }
  }

  /** One round of a frame that can be sent: the rest, or as long a fragment as the mailbox holds. */
  lemma FragmentableStep(size: nat, maxdata: nat)
    requires Fragmentable(size, maxdata)
    ensures var n, lens := NextSize(size, maxdata), SendLens(size, maxdata);
      if size <= maxdata then n == size && lens == []
      else 0 < n < size && lens != [] && lens[0] == n && Fragmentable(size - n, maxdata)
           && lens[1..] == SendLens(size - n, maxdata)
  {
  }

  lemma NumberedStep(f: Frame, lens: seq<nat>, fragNo: nat, off: nat)
    requires off + Sum(lens) <= |f.body| && lens != []
    ensures off + lens[0] + Sum(lens[1..]) <= |f.body|
    ensures Numbered(f, lens, fragNo, off) == [FragmentAt(Renumbered(f, fragNo), fragNo, off, lens[0], false)]
                                             + Numbered(Renumbered(f, fragNo), lens[1..], (fragNo + 1) % 0x100,
                                                        off + lens[0])
  {
  }

  /** How the loop goes on with a frame that can be sent, of which `rest` bytes are left. */
  lemma FragmentableRound(taken: nat -> bool, f: Frame, maxdata: nat, fragNo: nat, offset: nat, log: seq<Fragment>,
                          rounds: nat, rest: nat, f': Frame, size: nat, next: Fragment, fragNo': nat, offset': nat,
                          log': seq<Fragment>, r: Sending)
    requires offset + rest == |f.body| < 0x1_0000 && Fragmentable(rest, maxdata) && rounds > 0
    requires f' == Renumbered(f, fragNo) && size == NextSize(rest, maxdata)
    requires next == FragmentAt(f', fragNo, offset, size, rest <= maxdata)
    requires fragNo' == (fragNo + 1) % 0x100 && offset' == offset + size && log' == log + [next]
    requires Yields(taken, f, maxdata, fragNo, offset, log, rounds, r)
    ensures if rest > maxdata && taken(|log|) then Yields(taken, f', maxdata, fragNo', offset', log', rounds - 1, r)
            else r == Sending(taken(|log|), log', f'.no, true)
  {
    assert size == rest <==> rest <= maxdata by { FragmentableStep(rest, maxdata); }
    assert (offset + size) % 0x1_0000 == offset + size;
    assert |f.body| - offset == rest;
    SendRound(taken, f, maxdata, fragNo, offset, log, rounds, f', size, next);
  }

  /** The rest of a frame that can be sent: the loop ends at its last fragment, or at one that is not taken. */
  lemma {:induction false} SendsRest(taken: nat -> bool, f: Frame, maxdata: nat, fragNo: nat, offset: nat,
                                     log: seq<Fragment>, rounds: nat, rest: nat, lens: seq<nat>, r: Sending)
    requires offset + rest == |f.body| < 0x1_0000 && Fragmentable(rest, maxdata)
    requires lens == SendLens(rest, maxdata) && Yields(taken, f, maxdata, fragNo, offset, log, rounds, r)
    ensures r.done <==> rounds > |lens| || Rejected(taken, |log|, rounds)
    decreases rounds
  {
    if rounds > 0 {
      var f', fragNo' := Renumbered(f, fragNo), (fragNo + 1) % 0x100;
      var size := NextSize(rest, maxdata);
      var offset', next := offset + size, FragmentAt(f', fragNo, offset, size, rest <= maxdata);
      FragmentableStep(rest, maxdata);
      FragmentableRound(taken, f, maxdata, fragNo, offset, log, rounds, rest, f', size, next, fragNo', offset',
                        log + [next], r);
      RejectedNext(taken, |log|, rounds);
      if rest > maxdata && taken(|log|) {
        SendsRest(taken, f', maxdata, fragNo', offset', log + [next], rounds - 1, rest - size, lens[1..], r);
      }
    }
  }

  predicate IsLeft(left: seq<Fragment>, f: Frame, lens: seq<nat>, fragNo: nat, off: nat) {
    off + Sum(lens) <= |f.body| && left == Numbered(f, lens, fragNo, off)
  }

  /** What is left to be sent behind the next fragment. */
  lemma LeftBehind(f: Frame, lens: seq<nat>, fragNo: nat, off: nat, left: seq<Fragment>, fragNo': nat, off': nat)
    returns (next: Fragment, later: seq<Fragment>)
    requires IsLeft(left, f, lens, fragNo, off) && fragNo' == (fragNo + 1) % 0x100
    requires lens != [] ==> off' == off + lens[0]
    ensures left == [next] + later && (lens == [] ==> later == [])
    ensures next == FragmentAt(Renumbered(f, fragNo), fragNo, off, if lens == [] then |f.body| - off else lens[0],
                               lens == [])
    ensures lens != [] ==> IsLeft(later, Renumbered(f, fragNo), lens[1..], fragNo', off')
  {
    next, later := left[0], left[1..];
    if lens != [] { NumberedStep(f, lens, fragNo, off); }
  }

  /** The loop stands before fragment |log| of a frame that can be sent: `rest` bytes are left, in the fragments
      `left`. */
  predicate InLoop(taken: nat -> bool, f: Frame, maxdata: nat, fragNo: nat, offset: nat, log: seq<Fragment>,
                   rounds: nat, rest: nat, lens: seq<nat>, r: Sending, left: seq<Fragment>, all: seq<Fragment>)
  {
    && offset + rest == |f.body| < 0x1_0000 && Fragmentable(rest, maxdata) && Took(taken, |log|)
    && lens == SendLens(rest, maxdata) && Yields(taken, f, maxdata, fragNo, offset, log, rounds, r)
    && IsLeft(left, f, lens, fragNo, offset) && all == log + left && r.done
  }

  lemma LoopStep(taken: nat -> bool, f: Frame, maxdata: nat, fragNo: nat, offset: nat, log: seq<Fragment>, rounds: nat,
                 rest: nat, lens: seq<nat>, r: Sending, left: seq<Fragment>, all: seq<Fragment>)
    returns (f': Frame, fragNo': nat, size: nat, log': seq<Fragment>, later: seq<Fragment>)
    requires InLoop(taken, f, maxdata, fragNo, offset, log, rounds, rest, lens, r, left, all) && rounds > 0
    ensures if rest <= maxdata || !taken(|log|) then Sent(taken, all, r.log, r.ok)
            else size <= rest && lens != []
                 && InLoop(taken, f', maxdata, fragNo', offset + size, log', rounds - 1, rest - size, lens[1..], r,
                           later, all)
  {
    f', fragNo', size := Renumbered(f, fragNo), (fragNo + 1) % 0x100, NextSize(rest, maxdata);
    var offset' := offset + size;
    FragmentableStep(rest, maxdata);
    var next;
    next, later := LeftBehind(f, lens, fragNo, offset, left, fragNo', offset');
    log' := log + [next];
    FragmentableRound(taken, f, maxdata, fragNo, offset, log, rounds, rest, f', size, next, fragNo', offset', log', r);
    if rest <= maxdata || !taken(|log|) {
      SentUpTo(taken, log, next, later, left, all);
    } else {
      TookOneMore(taken, log, next, later, left, all, log');
    }
  }

  /** When it has ended, it has sent the fragments up to there. */
  lemma {:induction false} SentRest(taken: nat -> bool, f: Frame, maxdata: nat, fragNo: nat, offset: nat,
                                    log: seq<Fragment>, rounds: nat, rest: nat, lens: seq<nat>, r: Sending,
                                    left: seq<Fragment>, all: seq<Fragment>)
    requires InLoop(taken, f, maxdata, fragNo, offset, log, rounds, rest, lens, r, left, all)
    ensures Sent(taken, all, r.log, r.ok)
    decreases rounds
  {
    if rounds > 0 {
      var f', fragNo', size, log', later :=
          LoopStep(taken, f, maxdata, fragNo, offset, log, rounds, rest, lens, r, left, all);
      if rest > maxdata && taken(|log|) {
        SentRest(taken, f', maxdata, fragNo', offset + size, log', rounds - 1, rest - size, lens[1..], r, later, all);
      }
    }
  }

  /** What is left of a frame that cannot be sent never ends: it stays above 16 bits, or above a mailbox that
      holds no block. */
  predicate Endless(rest: nat, maxdata: nat) {
    rest >= 0x1_0000 || (maxdata < 32 && rest > maxdata)
  }

  lemma EndlessStep(size: nat, offset: nat, maxdata: nat, n: nat, offset': nat)
    requires offset <= size && Endless(size - offset, maxdata)
    requires n == NextSize(size - offset, maxdata) && offset' == (offset + n) % 0x1_0000
    ensures n < size - offset && offset' <= size && Endless(size - offset', maxdata)
  {
    var rest := size - offset;
    if rest >= 0x1_0000 { assert rest - n >= rest - rest % 0x1_0000 >= 0x1_0000; } else { assert n == 0; }
  }

  /** Such a frame is sent until a fragment is not taken. */
  lemma {:induction false} SendsOn(taken: nat -> bool, f: Frame, maxdata: nat, fragNo: nat, offset: nat,
                                   log: seq<Fragment>, rounds: nat)
    requires offset <= |f.body| && Endless(|f.body| - offset, maxdata)
    ensures var r := SendFrom(taken, f, maxdata, fragNo, offset, log, rounds);
      !r.ok && (r.done <==> Rejected(taken, |log|, rounds))
    decreases rounds
  {
    if rounds > 0 {
      var f', n := Renumbered(f, fragNo), NextSize(|f.body| - offset, maxdata);
      var next, offset' := FragmentAt(f', fragNo, offset, n, false), (offset + n) % 0x1_0000;
      EndlessStep(|f.body|, offset, maxdata, n, offset');
      SendRound(taken, f, maxdata, fragNo, offset, log, rounds, f', n, next);
      RejectedNext(taken, |log|, rounds);
      if taken(|log|) { SendsOn(taken, f', maxdata, (fragNo + 1) % 0x100, offset', log + [next], rounds - 1); }
    }
  }

  lemma FragmentableSent(taken: nat -> bool, f: Frame, maxdata: nat, rounds: nat, lens: seq<nat>, r: Sending)
    requires Fragmentable(|f.body|, maxdata) && lens == SendLens(|f.body|, maxdata)
             && Yields(taken, f, maxdata, 0, 0, [], rounds, r)
    ensures r.done <==> rounds > |lens| || Rejected(taken, 0, rounds)
    ensures r.done ==> Sent(taken, Numbered(f, lens, 0, 0), r.log, r.ok)
  {
    var all := Numbered(f, lens, 0, 0);
    SendsRest(taken, f, maxdata, 0, 0, [], rounds, |f.body|, lens, r);
    assert all == [] + all;
    assert IsLeft(all, f, lens, 0, 0);
    if r.done { SentRest(taken, f, maxdata, 0, 0, [], rounds, |f.body|, lens, r, all, all); }
  }

  /** What ecx_EOEsend does, for every frame and every mailbox. It is done within these rounds if and only if one of
      the fragments is not taken, or the frame can be sent and there is a round for each of its fragments; then it
      has sent these fragments in order, up to the first that is not taken. */
  lemma SendDone(taken: nat -> bool, port: nat, p: seq<byte>, mbxl: nat, frameNo: nat, rounds: nat, r: Sending)
    requires mbxl >= 10 && r == SendRun(taken, port, p, mbxl, frameNo, rounds)
    ensures if Fragmentable(|p|, mbxl - 10) then
              var lens := SendLens(|p|, mbxl - 10);
              && (r.done <==> rounds > |lens| || Rejected(taken, 0, rounds))
              && (r.done ==> Sent(taken, Numbered(Frame(p, port, frameNo, false), lens, 0, 0), r.log, r.ok))
            else !r.ok && (r.done <==> Rejected(taken, 0, rounds))
  {
    var f := Frame(p, port, frameNo, false);
    if Fragmentable(|p|, mbxl - 10) {
      FragmentableSent(taken, f, mbxl - 10, rounds, SendLens(|p|, mbxl - 10), r);
    } else {
      SendsOn(taken, f, mbxl - 10, 0, 0, [], rounds);
    }
  }

  ghost predicate EndsSending(taken: nat -> bool, port: nat, p: seq<byte>, mbxl: nat, frameNo: nat)
    requires mbxl >= 10
  {
    exists rounds: nat :: SendRun(taken, port, p, mbxl, frameNo, rounds).done
  }

  /** Sending ends if and only if some fragment is not taken, or the frame fits one fragment, or it has less than
      65536 bytes and the mailbox at least 42. */
  lemma SendEndsIff(taken: nat -> bool, port: nat, p: seq<byte>, mbxl: nat, frameNo: nat)
    requires 10 <= mbxl < 0x1_0000
    ensures EndsSending(taken, port, p, mbxl, frameNo) <==>
              (exists k: nat :: NotTaken(taken, k)) || |p| <= mbxl - 10 || (|p| < 0x1_0000 && mbxl >= 42)
  {
    if EndsSending(taken, port, p, mbxl, frameNo) {
      var rounds: nat :| SendRun(taken, port, p, mbxl, frameNo, rounds).done;
      SendDone(taken, port, p, mbxl, frameNo, rounds, SendRun(taken, port, p, mbxl, frameNo, rounds));
    }
    if k: nat :| NotTaken(taken, k) {
      SendDone(taken, port, p, mbxl, frameNo, k + 1, SendRun(taken, port, p, mbxl, frameNo, k + 1));
      assert SendRun(taken, port, p, mbxl, frameNo, k + 1).done;
    }
    if Fragmentable(|p|, mbxl - 10) {
      var rounds := |SendLens(|p|, mbxl - 10)| + 1;
      SendDone(taken, port, p, mbxl, frameNo, rounds, SendRun(taken, port, p, mbxl, frameNo, rounds));
      assert SendRun(taken, port, p, mbxl, frameNo, rounds).done;
    }
  }

  predicate AllEmpty(log: seq<Fragment>) {
    forall k :: 0 <= k < |log| ==> log[k].data == []
  }

  lemma {:induction false} SendsNothing(taken: nat -> bool, f: Frame, maxdata: nat, fragNo: nat, log: seq<Fragment>,
                                        rounds: nat)
    requires maxdata < 32 && maxdata < |f.body| < 0x1_0000 && AllEmpty(log)
    ensures AllEmpty(SendFrom(taken, f, maxdata, fragNo, 0, log, rounds).log)
    decreases rounds
  {
    if rounds > 0 {
      var f' := Renumbered(f, fragNo);
      var next := FragmentAt(f', fragNo, 0, 0, false);
      assert |f.body| - 0 == |f.body| && NextSize(|f.body|, maxdata) == 0 && next.data == [];
      SendRound(taken, f, maxdata, fragNo, 0, log, rounds, f', 0, next);
      SendsNothing(taken, f', maxdata, (fragNo + 1) % 0x100, log + [next], rounds - 1);
    }
  }

  /** A mailbox of less than 42 bytes, a frame that it does not hold, and a slave that takes everything: no number of
      rounds ends it, and no byte of the frame is sent. */
  lemma SmallMailboxHangsSend(taken: nat -> bool, port: nat, p: seq<byte>, mbxl: nat, frameNo: nat, rounds: nat)
    requires 10 <= mbxl < 42 && mbxl - 10 < |p| < 0x1_0000 && forall k :: taken(k)
    ensures var r := SendRun(taken, port, p, mbxl, frameNo, rounds); !r.done && AllEmpty(r.log)
  {
    SendDone(taken, port, p, mbxl, frameNo, rounds, SendRun(taken, port, p, mbxl, frameNo, rounds));
    SendsNothing(taken, Frame(p, port, frameNo, false), mbxl - 10, 0, [], rounds);
  }
}
