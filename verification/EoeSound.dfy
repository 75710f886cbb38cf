/** What a reported Ethernet frame is made of: exactly when ecx_EOEreadfragment and ecx_EOErecv report one,
    for whatever mailboxes come in. */
module EoeSound {
  import opened Basics
  import opened Bytes
  import opened Segments
  import opened Eoe
  import opened EoeReceive

  // ----- fragments of one frame, as they come in

  /** The fragments among the mailboxes whose data find room behind those before. */
  function Kept(mail: seq<Fragment>, room: nat): seq<Fragment> {
    if mail == [] then []
    else
      var kept, f := Kept(mail[..|mail| - 1], room), mail[|mail| - 1];
      if f.mtype == ECT_MBXT_EOE && |Data(kept)| + |f.data| <= room then kept + [f] else kept
  }

  /** Their data joined. */
  function Data(kept: seq<Fragment>): seq<byte> {
    if kept == [] then [] else Data(kept[..|kept| - 1]) + kept[|kept| - 1].data
  }

  /** Fragment f comes next behind `kept`: it has the next number (`loose`: or the number 0), the number of the
      frame, and tells as its offset how many data there are. A receiver counts in 8 bits. */
  predicate Follows(f: Fragment, first: Fragment, kept: seq<Fragment>, loose: bool) {
    && f.mtype == ECT_MBXT_EOE && |kept| % 0x100 > 0
    && (FragNoOf(f.info2) == |kept| % 0x100 || (loose && FragNoOf(f.info2) == 0))
       && FrameNoOf(f.info2) == FrameNoOf(first.info2) && BlocksOf(f.info2) * 32 == |Data(kept)|
  }

  predicate IsFirst(f: Fragment) { f.mtype == ECT_MBXT_EOE && FragNoOf(f.info2) == 0 }

  /** The i-th mailbox, if it is a fragment, follows what was kept of those before. */
  predicate FollowsAt(mail: seq<Fragment>, i: nat, room: nat, loose: bool)
    requires i < |mail|
  {
    mail[i].mtype == ECT_MBXT_EOE ==> Follows(mail[i], mail[0], Kept(mail[..i], room), loose)
  }

  /** The mailboxes are a first fragment and what follows it, amid mail of other kinds. */
  predicate OneFrame(mail: seq<Fragment>, room: nat, loose: bool) {
    && mail != [] && IsFirst(mail[0])
    && forall i :: 1 <= i < |mail| ==> FollowsAt(mail, i, room, loose)
  }

  /** The last fragment of the frame came in with the last mailbox, and no sooner. */
  predicate Ended(mail: seq<Fragment>) {
    && mail != [] && mail[|mail| - 1].mtype == ECT_MBXT_EOE && IsLast(mail[|mail| - 1].info1)
    && forall i :: 0 <= i < |mail| - 1 && mail[i].mtype == ECT_MBXT_EOE ==> !IsLast(mail[i].info1)
  }

  /** So many bytes are reported of n received: four less with a timestamp, in 16 bits. */
  predicate SizeTold(told: nat, n: nat, info1: nat) {
    told == if IsStamped(info1) then (n - 4) % 0x1_0000 else n
  }

  /** The mailboxes are one whole frame, of which `told` bytes are reported. */
  predicate Reports(mail: seq<Fragment>, room: nat, told: nat, loose: bool) {
    OneFrame(mail, room, loose) && Ended(mail) && SizeTold(told, |Data(Kept(mail, room))|, mail[|mail| - 1].info1)
  }

  /** A frame has begun and is not at its end. */
  predicate Inside(mail: seq<Fragment>, room: nat, loose: bool) {
    && OneFrame(mail, room, loose) && |Kept(mail, room)| % 0x100 > 0
    && forall i :: 0 <= i < |mail| && mail[i].mtype == ECT_MBXT_EOE ==> !IsLast(mail[i].info1)
  }

  /** The data of these fragments stand at the beginning of the buffer. */
  predicate Stored(buf: seq<byte>, kept: seq<Fragment>) { Data(kept) <= buf }

  /** The receiver has the fragments `kept` of a frame that began with `first`. */
  predicate Has(rx: Rx, first: Fragment, kept: seq<Fragment>, room: nat) {
    && room <= |rx.buf| && rx.fragNo == |kept| % 0x100 && rx.offset == |Data(kept)|
    && rx.size == BlocksOf(first.info2) * 32 && rx.frameNo == FrameNoOf(first.info2) && Stored(rx.buf, kept)
  }

  /** What the receiver remembers inside a frame. */
  predicate Remembers(rx: Rx, mail: seq<Fragment>, room: nat, loose: bool) {
    Inside(mail, room, loose) && Has(rx, mail[0], Kept(mail, room), room)
  }

  lemma KeptNext(mail: seq<Fragment>, f: Fragment, room: nat)
    ensures Kept(mail + [f], room)
            == Kept(mail, room)
              + if f.mtype == ECT_MBXT_EOE && |Data(Kept(mail, room))| + |f.data| <= room then [f] else []
    ensures Data(Kept(mail, room) + [f]) == Data(Kept(mail, room)) + f.data
  {
    assert (mail + [f])[..|mail|] == mail;
    var kept := Kept(mail, room);
    assert (kept + [f])[..|kept|] == kept;
  }

  lemma {:induction false} KeptFits(mail: seq<Fragment>, room: nat)
    ensures |Data(Kept(mail, room))| <= room
  {
    if mail != [] {
      var before, f := mail[..|mail| - 1], mail[|mail| - 1];
      KeptFits(before, room);
      DataNext(Kept(before, room), f);
    }
  }

  lemma DataNext(kept: seq<Fragment>, f: Fragment)
    ensures Data(kept + [f]) == Data(kept) + f.data
  {
    assert (kept + [f])[..|kept|] == kept;
  }

  /** One more mailbox behind a beginning of a frame. */
  lemma FrameNext(mail: seq<Fragment>, f: Fragment, room: nat, loose: bool)
    requires mail != []
    ensures OneFrame(mail + [f], room, loose) <==>
              OneFrame(mail, room, loose) && (f.mtype == ECT_MBXT_EOE ==> Follows(f, mail[0], Kept(mail, room), loose))
  {
    var next := mail + [f];
    assert next[..|mail|] == mail;
    forall i | 1 <= i < |mail|
      ensures FollowsAt(next, i, room, loose) == FollowsAt(mail, i, room, loose)
    {
      assert next[..i] == mail[..i];
    }
    if OneFrame(next, room, loose) {
      forall i | 1 <= i < |mail|
        ensures FollowsAt(mail, i, room, loose)
      {
        assert FollowsAt(next, i, room, loose);
      }
      assert FollowsAt(next, |mail|, room, loose);
    }
  }

  lemma InsideNext(mail: seq<Fragment>, f: Fragment, room: nat, loose: bool)
    ensures Inside(mail + [f], room, loose) ==> Inside(mail, room, loose) || (mail == [] && IsFirst(f))
    ensures Inside(mail, room, loose) ==>
              (Inside(mail + [f], room, loose) <==>
                 && |Kept(mail + [f], room)| % 0x100 > 0
                 && (f.mtype == ECT_MBXT_EOE ==> Follows(f, mail[0], Kept(mail, room), loose) && !IsLast(f.info1)))
  {
    var next := mail + [f];
    assert next[|mail|] == f && forall i :: 0 <= i < |mail| ==> next[i] == mail[i];
    KeptNext(mail, f, room);
    if mail != [] { FrameNext(mail, f, room, loose); }
  }

  lemma ReportsNext(mail: seq<Fragment>, f: Fragment, room: nat, told: nat, loose: bool)
    ensures Reports(mail + [f], room, told, loose) ==> Inside(mail, room, loose) || (mail == [] && IsFirst(f))
    ensures Inside(mail, room, loose) ==>
              (Reports(mail + [f], room, told, loose) <==>
                 Follows(f, mail[0], Kept(mail, room), loose) && IsLast(f.info1)
                   && SizeTold(told, |Data(Kept(mail + [f], room))|, f.info1))
  {
    var next := mail + [f];
    assert next[|mail|] == f && forall i :: 0 <= i < |mail| ==> next[i] == mail[i];
    if mail != [] { FrameNext(mail, f, room, loose); }
  }

  /** A first fragment alone. */
  lemma FirstAlone(f: Fragment, room: nat, loose: bool)
    ensures Kept([f], room) == if f.mtype == ECT_MBXT_EOE && |f.data| <= room then [f] else []
    ensures Inside([f], room, loose) <==> IsFirst(f) && |f.data| <= room && !IsLast(f.info1)
    ensures forall told ::
      Reports([f], room, told, loose) <==>
        IsFirst(f) && IsLast(f.info1) && SizeTold(told, if |f.data| <= room then |f.data| else 0, f.info1)
  {
    assert [] + [f] == [f];
    KeptNext([], f, room);
    DataNext([], f);
  }

  /** A first fragment is about to be taken. */
  predicate Starts(rx: Rx, f: Fragment, room: nat) {
    IsFirst(f) && room <= |rx.buf| && rx == Rx(0, BlocksOf(f.info2) * 32, 0, FrameNoOf(f.info2), rx.buf)
  }

  /** Receiver and buffer after the data of the last of these mailboxes were taken, or left out if they do not fit. */
  predicate TookData(rx: Rx, next: seq<Fragment>, room: nat, last: bool, loose: bool) {
    && rx.offset == |Data(Kept(next, room))| && Stored(rx.buf, Kept(next, room))
    && (if Inside(next, room, loose) then Remembers(rx, next, room, loose) else last || rx.fragNo == 0)
  }

  lemma FirstTaken(rx: Rx, f: Fragment, room: nat, loose: bool)
    requires Starts(rx, f, room)
    ensures |Copy(rx, f.data, room).buf| == |rx.buf|
            && TookData(Copy(rx, f.data, room), [f], room, IsLast(f.info1), loose)
  {
    FirstAlone(f, room, loose);
    DataNext([], f);
    assert [] + [f] == [f];
  }

  lemma CopyNext(rx: Rx, first: Fragment, kept: seq<Fragment>, f: Fragment, room: nat)
    requires Has(rx, first, kept, room)
    ensures |Copy(rx, f.data, room).buf| == |rx.buf|
    ensures Has(Copy(rx, f.data, room), first, kept + if |Data(kept)| + |f.data| <= room then [f] else [], room)
  {
    assert kept + [] == kept;
    if |Data(kept)| + |f.data| <= room {
      DataNext(kept, f);
      Appends(rx.buf, Data(kept), f.data);
    }
  }

  lemma Appends(buf: seq<byte>, data: seq<byte>, more: seq<byte>)
    requires data <= buf && |data| + |more| <= |buf|
    ensures data + more <= Overwrite(buf, |data|, more)
  {
  }

  lemma NextTaken(rx: Rx, mail: seq<Fragment>, f: Fragment, room: nat, loose: bool)
    requires Remembers(rx, mail, room, loose) && Follows(f, mail[0], Kept(mail, room), loose)
    ensures |Copy(rx, f.data, room).buf| == |rx.buf|
            && TookData(Copy(rx, f.data, room), mail + [f], room, IsLast(f.info1), loose)
  {
    KeptNext(mail, f, room);
    InsideNext(mail, f, room, loose);
    CopyNext(rx, mail[0], Kept(mail, room), f, room);
  }

  // ----- the assembler

  function Room(f: Fragment, psize: nat): nat { Min(BlocksOf(f.info2) * 32, psize) }

  /** The mailboxes from the s-th on are a frame that has begun. */
  predicate InsideFrom(past: seq<Fragment>, s: nat, psize: nat) {
    s < |past| && Inside(past[s..], Room(past[s], psize), false)
  }

  /** The mailboxes from the s-th on are a whole frame, of which `told` bytes are reported. */
  predicate ReportsFrom(past: seq<Fragment>, s: nat, psize: nat, told: nat) {
    s < |past| && Reports(past[s..], Room(past[s], psize), told, false)
  }

  /** What the receiver has of the mailboxes `past`: exactly the frame that has begun, if one has. */
  ghost predicate Knows(rx: Rx, past: seq<Fragment>, psize: nat) {
    && psize <= |rx.buf|
    && (rx.fragNo == 0 ==> forall s: nat :: !InsideFrom(past, s, psize))
    && (rx.fragNo > 0 ==> exists s: nat :: InsideFrom(past, s, psize))
    && forall s: nat :: InsideFrom(past, s, psize) ==> Remembers(rx, past[s..], Room(past[s], psize), false)
  }

  /** The code for the last of the mailboxes `past`: a frame is reported exactly if the mailboxes since some first
      fragment are one, and its data are in the buffer. */
  ghost predicate RightCode(past: seq<Fragment>, psize: nat, code: Code, buf: seq<byte>) {
    && (code.Last? ==> exists s: nat :: ReportsFrom(past, s, psize, code.size))
    && forall s: nat, told: nat :: ReportsFrom(past, s, psize, told) ==>
         code == Last(told) && Stored(buf, Kept(past[s..], Room(past[s], psize)))
  }

  lemma Suffixes(past: seq<Fragment>, f: Fragment, s: nat)
    requires s <= |past|
    ensures (past + [f])[s..] == past[s..] + [f] && (s < |past| ==> (past + [f])[s] == past[s])
  {
  }

  /** A frame goes on only where one had begun. */
  lemma FromNext(past: seq<Fragment>, f: Fragment, psize: nat, s: nat)
    ensures s < |past| && !InsideFrom(past, s, psize) ==>
              !InsideFrom(past + [f], s, psize) && forall told :: !ReportsFrom(past + [f], s, psize, told)
    ensures s < |past| && InsideFrom(past, s, psize) && f.mtype == ECT_MBXT_EOE
            && !Follows(f, past[s], Kept(past[s..], Room(past[s], psize)), false) ==>
              !InsideFrom(past + [f], s, psize) && forall told :: !ReportsFrom(past + [f], s, psize, told)
  {
    if s < |past| {
      Suffixes(past, f, s);
      InsideNext(past[s..], f, Room(past[s], psize), false);
      forall told: nat
        ensures ReportsFrom(past + [f], s, psize, told) ==>
                  InsideFrom(past, s, psize) && Follows(f, past[s], Kept(past[s..], Room(past[s], psize)), false)
      {
        ReportsNext(past[s..], f, Room(past[s], psize), told, false);
      }
    }
  }

  /** Mail of another kind. */
  lemma StepOther(rx: Rx, past: seq<Fragment>, f: Fragment, psize: nat)
    requires Knows(rx, past, psize) && f.mtype != ECT_MBXT_EOE
    ensures Knows(rx, past + [f], psize) && RightCode(past + [f], psize, PacketError, rx.buf)
  {
    forall s: nat
      ensures InsideFrom(past + [f], s, psize) <==> InsideFrom(past, s, psize)
      ensures InsideFrom(past, s, psize) ==> Remembers(rx, (past + [f])[s..], Room((past + [f])[s], psize), false)
      ensures forall told :: !ReportsFrom(past + [f], s, psize, told)
    {
      OtherFrom(rx, past, f, psize, s);
    }
  }

  lemma OtherFrom(rx: Rx, past: seq<Fragment>, f: Fragment, psize: nat, s: nat)
    requires Knows(rx, past, psize) && f.mtype != ECT_MBXT_EOE
    ensures InsideFrom(past + [f], s, psize) <==> InsideFrom(past, s, psize)
    ensures InsideFrom(past, s, psize) ==> Remembers(rx, (past + [f])[s..], Room((past + [f])[s], psize), false)
    ensures forall told :: !ReportsFrom(past + [f], s, psize, told)
  {
    if s < |past| {
      Suffixes(past, f, s);
      FromNext(past, f, psize, s);
      InsideNext(past[s..], f, Room(past[s], psize), false);
      KeptNext(past[s..], f, Room(past[s], psize));
    } else if s == |past| {
      Suffixes(past, f, s);
      FirstAlone(f, Room(f, psize), false);
    }
  }

  /** Receiver and code after the data of f were taken. */
  function AfterData(rx: Rx, f: Fragment): (Rx, Code) {
    if IsLast(f.info1) then (Reset(rx), Last(ReceivedSize(rx.offset, f.info1))) else (rx, More)
  }

  lemma ReadsFirst(rx: Rx, f: Fragment, psize: nat)
    requires IsFirst(f) && psize <= |rx.buf|
    ensures var start := Rx(0, BlocksOf(f.info2) * 32, 0, FrameNoOf(f.info2), rx.buf);
      ReadFragment(rx, f, psize) == AfterData(Copy(start, f.data, Room(f, psize)), f)
  {
  }

  lemma ReadsNext(rx: Rx, f: Fragment, psize: nat)
    requires f.mtype == ECT_MBXT_EOE && !IsFirst(f) && psize <= |rx.buf|
    requires rx.fragNo == FragNoOf(f.info2) && rx.frameNo == FrameNoOf(f.info2) && rx.offset == BlocksOf(f.info2) * 32
    ensures ReadFragment(rx, f, psize) == AfterData(Copy(rx, f.data, Min(rx.size, psize)), f)
  {
  }

  lemma ToldSize(n: nat, info1: nat)
    ensures SizeTold(ReceivedSize(n, info1), n, info1)
    ensures forall told :: SizeTold(told, n, info1) ==> told == ReceivedSize(n, info1)
  {
  }

  /** The frame from s on goes on, or is reported. */
  ghost predicate NextFrom(rx: Rx, code: Code, next: seq<Fragment>, s: nat, psize: nat) {
    && s < |next|
    && (InsideFrom(next, s, psize) ==> rx.fragNo > 0 && Remembers(rx, next[s..], Room(next[s], psize), false))
    && (!InsideFrom(next, s, psize) ==> rx.fragNo == 0)
    && (code.Last? ==> ReportsFrom(next, s, psize, code.size))
    && forall told: nat :: ReportsFrom(next, s, psize, told) ==>
         code == Last(told) && Stored(rx.buf, Kept(next[s..], Room(next[s], psize)))
  }

  /** A first fragment, from any state. */
  lemma StepFirst(rx: Rx, past: seq<Fragment>, f: Fragment, psize: nat)
    requires Knows(rx, past, psize) && IsFirst(f)
    ensures var (rx', code) := ReadFragment(rx, f, psize);
      Knows(rx', past + [f], psize) && RightCode(past + [f], psize, code, rx'.buf)
  {
    var start := Rx(0, BlocksOf(f.info2) * 32, 0, FrameNoOf(f.info2), rx.buf);
    ReadsFirst(rx, f, psize);
    FirstTaken(start, f, Room(f, psize), false);
    var taken := Copy(start, f.data, Room(f, psize));
    FirstFrom(past, f, psize, taken);
    OnlyFrom(past, f, psize, AfterData(taken, f).0, AfterData(taken, f).1);
  }

  lemma FirstFrom(past: seq<Fragment>, f: Fragment, psize: nat, rx: Rx)
    requires IsFirst(f) && TookData(rx, [f], Room(f, psize), IsLast(f.info1), false)
    ensures var (rx', code) := AfterData(rx, f); NextFrom(rx', code, past + [f], |past|, psize)
  {
    Suffixes(past, f, |past|);
    TookFirst(rx, past + [f], f, psize, |past|, Room(f, psize));
  }

  lemma TookFirst(rx: Rx, next: seq<Fragment>, f: Fragment, psize: nat, s: nat, room: nat)
    requires s < |next| && next[s..] == [f] && next[s] == f && room == Room(f, psize) && IsFirst(f)
    requires TookData(rx, [f], room, IsLast(f.info1), false)
    ensures var (rx', code) := AfterData(rx, f); NextFrom(rx', code, next, s, psize)
  {
    FirstAlone(f, room, false);
    ToldSize(rx.offset, f.info1);
    assert Data(Kept([f], room)) == if |f.data| <= room then f.data else [] by { DataNext([], f); }
    forall told: nat
      ensures ReportsFrom(next, s, psize, told) <==> IsLast(f.info1) && told == ReceivedSize(rx.offset, f.info1)
    {
      assert ReportsFrom(next, s, psize, told) == Reports([f], room, told, false);
    }
  }

  /** What there is of a frame from s on is as it should be. */
  ghost predicate EachFrom(rx: Rx, code: Code, next: seq<Fragment>, s: nat, psize: nat) {
    || NextFrom(rx, code, next, s, psize)
    || (!InsideFrom(next, s, psize) && forall told: nat :: !ReportsFrom(next, s, psize, told))
  }

  lemma AllFrom(next: seq<Fragment>, psize: nat, rx: Rx, code: Code, s0: nat)
    requires NextFrom(rx, code, next, s0, psize) && psize <= |rx.buf|
    requires forall s: nat {:trigger EachFrom(rx, code, next, s, psize)} :: EachFrom(rx, code, next, s, psize)
    ensures Knows(rx, next, psize) && RightCode(next, psize, code, rx.buf)
  {
    forall s: nat | InsideFrom(next, s, psize)
      ensures rx.fragNo > 0 && Remembers(rx, next[s..], Room(next[s], psize), false)
    {
      assert EachFrom(rx, code, next, s, psize);
    }
    forall s: nat, told: nat | ReportsFrom(next, s, psize, told)
      ensures code == Last(told) && Stored(rx.buf, Kept(next[s..], Room(next[s], psize)))
    {
      assert EachFrom(rx, code, next, s, psize);
    }
  }

  /** Behind a first fragment there is no frame from elsewhere. */
  lemma OnlyFrom(past: seq<Fragment>, f: Fragment, psize: nat, rx: Rx, code: Code)
    requires IsFirst(f) && NextFrom(rx, code, past + [f], |past|, psize) && psize <= |rx.buf|
    ensures Knows(rx, past + [f], psize) && RightCode(past + [f], psize, code, rx.buf)
  {
    var next := past + [f];
    forall s: nat {:trigger EachFrom(rx, code, next, s, psize)}
      ensures EachFrom(rx, code, next, s, psize)
    {
      if s != |past| { FromNext(past, f, psize, s); }
    }
    AllFrom(next, psize, rx, code, |past|);
  }

  /** A fragment that does not follow. */
  lemma StepRefused(rx: Rx, past: seq<Fragment>, f: Fragment, psize: nat)
    requires Knows(rx, past, psize) && f.mtype == ECT_MBXT_EOE && !IsFirst(f)
    requires rx.fragNo == 0 || rx.fragNo != FragNoOf(f.info2) || rx.frameNo != FrameNoOf(f.info2)
             || rx.offset != BlocksOf(f.info2) * 32
    ensures var (rx', code) := ReadFragment(rx, f, psize);
      code == InvalidData && Knows(rx', past + [f], psize) && RightCode(past + [f], psize, code, rx'.buf)
  {
    forall s: nat
      ensures !InsideFrom(past + [f], s, psize) && forall told :: !ReportsFrom(past + [f], s, psize, told)
    {
      FromNext(past, f, psize, s);
      if s == |past| {
        Suffixes(past, f, s);
        FirstAlone(f, Room(f, psize), false);
      }
    }
  }

  /** One that does. */
  lemma StepNext(rx: Rx, past: seq<Fragment>, f: Fragment, psize: nat)
    requires Knows(rx, past, psize) && f.mtype == ECT_MBXT_EOE && !IsFirst(f)
    requires rx.fragNo == FragNoOf(f.info2) && rx.frameNo == FrameNoOf(f.info2) && rx.offset == BlocksOf(f.info2) * 32
    ensures var (rx', code) := ReadFragment(rx, f, psize);
      Knows(rx', past + [f], psize) && RightCode(past + [f], psize, code, rx'.buf)
  {
    var s0: nat :| InsideFrom(past, s0, psize);
    var (rx', code) := ReadFragment(rx, f, psize);
    forall s: nat {:trigger EachFrom(rx', code, past + [f], s, psize)}
      ensures EachFrom(rx', code, past + [f], s, psize)
    {
      if InsideFrom(past, s, psize) {
        ContinueFrom(rx, past, f, psize, s);
      } else {
        NotBegun(past, f, psize, s);
      }
    }
    ContinueFrom(rx, past, f, psize, s0);
    AllFrom(past + [f], psize, rx', code, s0);
  }

  lemma NotBegun(past: seq<Fragment>, f: Fragment, psize: nat, s: nat)
    requires !IsFirst(f) && !InsideFrom(past, s, psize)
    ensures !InsideFrom(past + [f], s, psize) && forall told :: !ReportsFrom(past + [f], s, psize, told)
  {
    FromNext(past, f, psize, s);
    if s == |past| {
      Suffixes(past, f, s);
      FirstAlone(f, Room(f, psize), false);
    }
  }

  lemma ContinueFrom(rx: Rx, past: seq<Fragment>, f: Fragment, psize: nat, s: nat)
    requires Knows(rx, past, psize) && InsideFrom(past, s, psize) && f.mtype == ECT_MBXT_EOE && !IsFirst(f)
    requires rx.fragNo == FragNoOf(f.info2) && rx.frameNo == FrameNoOf(f.info2) && rx.offset == BlocksOf(f.info2) * 32
    ensures var (rx', code) := ReadFragment(rx, f, psize); NextFrom(rx', code, past + [f], s, psize)
  {
    var mail, room := past[s..], Room(past[s], psize);
    Suffixes(past, f, s);
    assert Follows(f, mail[0], Kept(mail, room), false);
    ReadsNext(rx, f, psize);
    NextTaken(rx, mail, f, room, false);
    TookNext(Copy(rx, f.data, room), past + [f], mail, f, psize, s, room);
  }

  lemma TookNext(rx: Rx, next: seq<Fragment>, mail: seq<Fragment>, f: Fragment, psize: nat, s: nat, room: nat)
    requires s < |next| && next[s..] == mail + [f] && room == Room(next[s], psize) && Inside(mail, room, false)
    requires Follows(f, mail[0], Kept(mail, room), false) && TookData(rx, mail + [f], room, IsLast(f.info1), false)
    ensures var (rx', code) := AfterData(rx, f); NextFrom(rx', code, next, s, psize)
  {
    InsideNext(mail, f, room, false);
    ToldSize(rx.offset, f.info1);
    forall told: nat
      ensures ReportsFrom(next, s, psize, told) <==>
                IsLast(f.info1) && SizeTold(told, |Data(Kept(mail + [f], room))|, f.info1)
    {
      ReportsNext(mail, f, room, told, false);
    }
  }

  lemma Step(rx: Rx, past: seq<Fragment>, f: Fragment, psize: nat)
    requires Knows(rx, past, psize)
    ensures var (rx', code) := ReadFragment(rx, f, psize);
      Knows(rx', past + [f], psize) && RightCode(past + [f], psize, code, rx'.buf)
  {
    if f.mtype != ECT_MBXT_EOE {
      StepOther(rx, past, f, psize);
    } else if IsFirst(f) {
      StepFirst(rx, past, f, psize);
    } else if rx.fragNo == FragNoOf(f.info2) && rx.frameNo == FrameNoOf(f.info2)
              && rx.offset == BlocksOf(f.info2) * 32 {
      StepNext(rx, past, f, psize);
    } else {
      StepRefused(rx, past, f, psize);
    }
  }

  /** The first code, and the others as they come behind it. */
  lemma FeedFirst(rx: Rx, fs: seq<Fragment>, psize: nat, t: nat, next: Rx, code: Code)
    requires psize <= |rx.buf| && t < |fs| && (next, code) == ReadFragment(rx, fs[0], psize)
    ensures |Feed(rx, fs, psize).1| == |fs| && |Feed(next, fs[1..], psize).1| == |fs| - 1
    ensures if t == 0 then Feed(rx, fs, psize).1[t] == code && Feed(rx, fs[..t + 1], psize).0 == next
            else Feed(rx, fs, psize).1[t] == Feed(next, fs[1..], psize).1[t - 1]
                 && Feed(rx, fs[..t + 1], psize).0 == Feed(next, fs[1..][..t], psize).0
  {
    FeedCounts(rx, fs, psize);
    FeedCounts(next, fs[1..], psize);
    var head := fs[..t + 1];
    assert head[0] == fs[0] && head[1..] == fs[1..][..t];
  }

  lemma {:induction false} FeedKnows(rx: Rx, past: seq<Fragment>, fs: seq<Fragment>, psize: nat, t: nat,
                                     all: seq<Fragment>, code: Code, buf: seq<byte>)
    requires Knows(rx, past, psize) && t < |fs| == |Feed(rx, fs, psize).1| && all == past + fs[..t + 1]
    requires code == Feed(rx, fs, psize).1[t] && buf == Feed(rx, fs[..t + 1], psize).0.buf
    ensures RightCode(all, psize, code, buf)
    decreases t
  {
    var (next, first) := ReadFragment(rx, fs[0], psize);
    FeedFirst(rx, fs, psize, t, next, first);
    Step(rx, past, fs[0], psize);
    FirstsJoined(past, fs, t);
    if t > 0 { FeedKnows(next, past + [fs[0]], fs[1..], psize, t - 1, all, code, buf); }
  }

  lemma FirstsJoined(past: seq<Fragment>, fs: seq<Fragment>, t: nat)
    requires t < |fs|
    ensures past + fs[..t + 1] == if t == 0 then past + [fs[0]] else past + [fs[0]] + fs[1..][..t]
  {
  }

  /** From a receiver that is not inside a frame, for every sequence of mailboxes: a frame is reported with the t-th if
      and only if the mailboxes since some first fragment are one frame, in order and without a gap, that ends there;
      then the size is that of the data that found room, and these stand in the buffer. */
  lemma ReportedIff(rx: Rx, fs: seq<Fragment>, psize: nat, t: nat)
    requires rx.fragNo == 0 && psize <= |rx.buf| && t < |fs|
    ensures |Feed(rx, fs, psize).1| == |fs|
    ensures RightCode(fs[..t + 1], psize, Feed(rx, fs, psize).1[t], Feed(rx, fs[..t + 1], psize).0.buf)
  {
    FeedCounts(rx, fs, psize);
    assert [] + fs[..t + 1] == fs[..t + 1];
    FeedKnows(rx, [], fs, psize, t, fs[..t + 1], Feed(rx, fs, psize).1[t], Feed(rx, fs[..t + 1], psize).0.buf);
  }

  // ----- what is left out

  /** All fragments among the mailboxes. */
  function Pieces(mail: seq<Fragment>): seq<Fragment> {
    if mail == [] then []
    else Pieces(mail[..|mail| - 1]) + if mail[|mail| - 1].mtype == ECT_MBXT_EOE then [mail[|mail| - 1]] else []
  }

  /** None is left out exactly if all have room together. */
  lemma {:induction false} AllKeptIff(mail: seq<Fragment>, room: nat)
    ensures Kept(mail, room) == Pieces(mail) <==> |Data(Pieces(mail))| <= room
    ensures |Kept(mail, room)| <= |Pieces(mail)|
  {
    if mail != [] {
      var before, f := mail[..|mail| - 1], mail[|mail| - 1];
      AllKeptIff(before, room);
      KeptFits(mail, room);
      DataNext(Pieces(before), f);
      assert Pieces(before) + [] == Pieces(before);
      if f.mtype == ECT_MBXT_EOE && Kept(mail, room) == Pieces(mail) {
        assert Kept(mail, room) == Kept(before, room) + [f];
        assert Kept(before, room) == (Kept(before, room) + [f])[..|Kept(before, room)|] == Pieces(before);
      }
    }
  }

  // ----- the blocking receiver

  /** A first fragment for the right port, of a frame that the buffer can hold. */
  predicate Welcome(f: Fragment, port: nat, room: nat) {
    IsFirst(f) && PortOf(f.info1) == port && BlocksOf(f.info2) * 32 <= room
  }

  /** First fragments that are left out: their data do not fit, and another first fragment may come. */
  predicate Passed(mail: seq<Fragment>, port: nat, room: nat) {
    forall i :: 0 <= i < |mail| ==> Welcome(mail[i], port, room) && |mail[i].data| > room && !IsLast(mail[i].info1)
  }

  /** All of the mail is EoE. */
  predicate AllEoe(mail: seq<Fragment>) {
    forall i :: 0 <= i < |mail| ==> mail[i].mtype == ECT_MBXT_EOE
  }

  /** Behind first fragments that do not fit, the mailboxes from the s-th to the t-th are one whole frame. */
  predicate FrameAt(mail: seq<Fragment>, s: nat, t: nat, port: nat, room: nat, told: nat) {
    && s <= t < |mail| && Passed(mail[..s], port, room) && AllEoe(mail[s..t + 1]) && Welcome(mail[s], port, room)
    && Reports(mail[s..t + 1], room, told, true)
  }

  lemma RefusedNot(rx: Rx, f: Fragment, port: nat)
    requires f.mtype == ECT_MBXT_EOE
    ensures rx.fragNo == 0 ==> (Refused(rx, f, port, |rx.buf|) <==> !Welcome(f, port, |rx.buf|))
    ensures rx.fragNo == 0 && Welcome(f, port, |rx.buf|) ==> Starts(Started(rx, f), f, |rx.buf|)
  {
  }

  lemma RefusedInside(rx: Rx, mail: seq<Fragment>, f: Fragment, port: nat)
    requires f.mtype == ECT_MBXT_EOE && Remembers(rx, mail, |rx.buf|, true)
    ensures Started(rx, f) == rx
    ensures Refused(rx, f, port, |rx.buf|) <==> !Follows(f, mail[0], Kept(mail, |rx.buf|), true)
  {
  }

  lemma {:induction false} OneFrameFirsts(mail: seq<Fragment>, room: nat, loose: bool, k: nat)
    requires OneFrame(mail, room, loose) && 1 <= k <= |mail|
    ensures OneFrame(mail[..k], room, loose)
  {
    forall i | 1 <= i < k
      ensures FollowsAt(mail[..k], i, room, loose)
    {
      assert FollowsAt(mail, i, room, loose) && mail[..k][..i] == mail[..i];
    }
  }

  /** Inside a frame the numbers are 0, 1, 2 and so on: six bits hold them all. */
  lemma {:induction false} StrictNumbers(mail: seq<Fragment>, room: nat)
    requires OneFrame(mail, room, false)
    ensures |Kept(mail, room)| <= 0x40
    ensures |mail| > 1 && mail[|mail| - 1].mtype == ECT_MBXT_EOE ==>
              FragNoOf(mail[|mail| - 1].info2) == |Kept(mail[..|mail| - 1], room)|
  {
    var before, f := mail[..|mail| - 1], mail[|mail| - 1];
    if |mail| == 1 {
      FirstAlone(f, room, false);
      assert mail == [f];
    } else {
      OneFrameFirsts(mail, room, false, |mail| - 1);
      StrictNumbers(before, room);
      assert FollowsAt(mail, |mail| - 1, room, false);
    }
  }

  /** What the receiver made of the mail, if it received a frame. */
  ghost predicate Sound(mail: seq<Fragment>, s: nat, t: nat, port: nat, room: nat, outcome: Outcome, buf: seq<byte>)
    requires outcome.Received?
  {
    && s <= t < |mail| && AllEoe(mail[..t + 1]) && Welcome(mail[s], port, room)
    && Reports(mail[s..t + 1], room, outcome.size, true) && Stored(buf, Kept(mail[s..t + 1], room))
  }

  /** The receiver before a mailbox: inside the frame that began with the s-th of the mailboxes `past`, or between
      frames. */
  ghost predicate Before(rx: Rx, past: seq<Fragment>, s: nat, port: nat, room: nat) {
    && room == |rx.buf| && AllEoe(past) && s <= |past|
    && if s < |past| then Remembers(rx, past[s..], room, true) && Welcome(past[s], port, room) else rx.fragNo == 0
  }

  /** A mailbox is taken: the frame it belongs to, and what of it the receiver has. */
  lemma TakenAt(rx: Rx, past: seq<Fragment>, s: nat, f: Fragment, port: nat, room: nat, rx': Rx, next: seq<Fragment>)
    requires Before(rx, past, s, port, room) && f.mtype == ECT_MBXT_EOE && !Refused(rx, f, port, room)
    requires rx' == Copy(Started(rx, f), f.data, room) && next == past + [f]
    ensures |rx'.buf| == room && TookData(rx', next[s..], room, IsLast(f.info1), true) && Welcome(next[s], port, room)
    ensures IsLast(f.info1) ==> Reports(next[s..], room, ReceivedSize(rx'.offset, f.info1), true)
  {
    Suffixes(past, f, s);
    if s < |past| {
      RefusedInside(rx, past[s..], f, port);
      NextTaken(rx, past[s..], f, room, true);
      LastReports(rx', past[s..], f, room);
    } else {
      RefusedNot(rx, f, port);
      FirstTaken(Started(rx, f), f, room, true);
      LastReportsFirst(rx', f, room);
    }
  }

  lemma LastReports(rx: Rx, mail: seq<Fragment>, f: Fragment, room: nat)
    requires Inside(mail, room, true) && Follows(f, mail[0], Kept(mail, room), true)
    requires rx.offset == |Data(Kept(mail + [f], room))|
    ensures IsLast(f.info1) ==> Reports(mail + [f], room, ReceivedSize(rx.offset, f.info1), true)
  {
    ToldSize(rx.offset, f.info1);
    ReportsNext(mail, f, room, ReceivedSize(rx.offset, f.info1), true);
  }

  lemma LastReportsFirst(rx: Rx, f: Fragment, room: nat)
    requires IsFirst(f) && TookData(rx, [f], room, IsLast(f.info1), true)
    ensures IsLast(f.info1) ==> Reports([f], room, ReceivedSize(rx.offset, f.info1), true)
  {
    FirstAlone(f, room, true);
    ToldSize(rx.offset, f.info1);
    DataNext([], f);
  }

  lemma TakenEnds(rx: Rx, past: seq<Fragment>, s: nat, f: Fragment, port: nat, room: nat, rx': Rx, next: seq<Fragment>)
    requires Before(rx, past, s, port, room) && f.mtype == ECT_MBXT_EOE && !Refused(rx, f, port, room)
             && IsLast(f.info1)
    requires rx' == Copy(Started(rx, f), f.data, room) && next == past + [f]
    ensures Sound(next, s, |past|, port, room, Received(ReceivedSize(rx'.offset, f.info1)), rx'.buf)
  {
    TakenAt(rx, past, s, f, port, room, rx', next);
    assert next[..|past| + 1] == next && next[s..|past| + 1] == next[s..];
  }

  lemma TakenGoesOn(rx: Rx, past: seq<Fragment>, s: nat, f: Fragment, port: nat, room: nat, rx': Rx,
                    next: seq<Fragment>)
    requires Before(rx, past, s, port, room) && f.mtype == ECT_MBXT_EOE && !Refused(rx, f, port, room)
             && !IsLast(f.info1)
    requires rx' == Copy(Started(rx, f), f.data, room) && next == past + [f]
    ensures Before(rx', next, if Inside(next[s..], room, true) then s else |next|, port, room)
  {
    TakenAt(rx, past, s, f, port, room, rx', next);
    assert AllEoe(next);
  }

  lemma SoundLonger(mail: seq<Fragment>, more: seq<Fragment>, s: nat, t: nat, port: nat, room: nat, outcome: Outcome,
                    buf: seq<byte>)
    requires outcome.Received? && Sound(mail, s, t, port, room, outcome, buf)
    ensures Sound(mail + more, s, t, port, room, outcome, buf)
  {
    assert (mail + more)[..t + 1] == mail[..t + 1] && (mail + more)[s..t + 1] == mail[s..t + 1];
  }

  /** The outcome behind the first mailbox. */
  lemma RecvNext(rx: Rx, rest: seq<Fragment>, port: nat, rx': Rx)
    requires rest != [] && rx' == Copy(Started(rx, rest[0]), rest[0].data, |rx.buf|)
    ensures var f := rest[0];
      Recv(rx, rest, port)
      == if f.mtype != ECT_MBXT_EOE then (Unexpected, rx.buf)
         else if Refused(rx, f, port, |rx.buf|) then (Invalid, rx.buf)
         else if IsLast(f.info1) then (Received(ReceivedSize(rx'.offset, f.info1)), rx'.buf)
         else Recv(rx', rest[1..], port)
  {
  }

  lemma {:induction false} RecvSound(rx: Rx, past: seq<Fragment>, s0: nat, rest: seq<Fragment>, port: nat, room: nat,
                                     all: seq<Fragment>, outcome: Outcome, buf: seq<byte>)
    returns (s: nat, t: nat)
    requires Before(rx, past, s0, port, room) && Recv(rx, rest, port) == (outcome, buf) && outcome.Received?
    requires all == past + rest
    ensures Sound(all, s, t, port, room, outcome, buf)
    decreases |rest|
  {
    var f, next := rest[0], past + [rest[0]];
    var rx' := Copy(Started(rx, f), f.data, room);
    RecvNext(rx, rest, port, rx');
    assert all == next + rest[1..];
    if IsLast(f.info1) {
      TakenEnds(rx, past, s0, f, port, room, rx', next);
      SoundLonger(next, rest[1..], s0, |past|, port, room, outcome, buf);
      s, t := s0, |past|;
    } else {
      TakenGoesOn(rx, past, s0, f, port, room, rx', next);
      s, t := RecvSound(rx', next, if Inside(next[s0..], room, true) then s0 else |next|, rest[1..], port, room,
                        all, outcome, buf);
    }
  }

  /** A frame that is not at its end yet has begun. */
  lemma InsideBefore(mail: seq<Fragment>, room: nat, k: nat)
    requires OneFrame(mail, room, true) && AllEoe(mail) && Ended(mail) && 1 <= k < |mail|
    ensures Inside(mail[..k], room, true) && Follows(mail[k], mail[0], Kept(mail[..k], room), true)
  {
    OneFrameFirsts(mail, room, true, k);
    assert mail[k].mtype == ECT_MBXT_EOE && FollowsAt(mail, k, room, true);
    NoneLast(mail, k);
  }

  lemma NoneLast(mail: seq<Fragment>, k: nat)
    requires AllEoe(mail) && Ended(mail) && k < |mail|
    ensures forall i :: 0 <= i < k ==> !IsLast(mail[..k][i].info1)
  {
    forall i | 0 <= i < k
      ensures !IsLast(mail[..k][i].info1)
    {
      assert mail[i].mtype == ECT_MBXT_EOE;
    }
  }

  /** The frame and the mailboxes before its k-th. */
  lemma FrameParts(all: seq<Fragment>, s: nat, t: nat, port: nat, room: nat, told: nat, k: nat, mail: seq<Fragment>)
    requires FrameAt(all, s, t, port, room, told) && s <= k <= t && mail == all[s..t + 1]
    ensures AllEoe(mail) && Reports(mail, room, told, true) && |mail| == t + 1 - s
    ensures mail[k - s] == all[k] && mail[..k - s] == all[s..k] && all[k].mtype == ECT_MBXT_EOE
  {
  }

  lemma PassedPart(all: seq<Fragment>, s: nat, t: nat, port: nat, room: nat, told: nat, k: nat)
    requires FrameAt(all, s, t, port, room, told) && k <= s
    ensures Welcome(all[k], port, room) && (k < s ==> !IsLast(all[k].info1) && |all[k].data| > room)
  {
    if k < s { assert all[..s][k] == all[k]; }
  }

  /** Where the receiver is when it has read k of the mailboxes of such a beginning. */
  function Begun(k: nat, s: nat): nat { if k > s then s else k }

  lemma NextRefusedNot(rx: Rx, all: seq<Fragment>, k: nat, port: nat, room: nat, s: nat, t: nat, told: nat)
    requires k <= t && FrameAt(all, s, t, port, room, told) && Before(rx, all[..k], Begun(k, s), port, room)
    ensures all[k].mtype == ECT_MBXT_EOE && !Refused(rx, all[k], port, room)
  {
    if k > s {
      FrameParts(all, s, t, port, room, told, k, all[s..t + 1]);
      FrameGoesOn(rx, all[s..t + 1], all[..k], all[k], k - s, s, port, room);
    } else {
      PassedPart(all, s, t, port, room, told, k);
      RefusedNot(rx, all[k], port);
    }
  }

  lemma FrameGoesOn(rx: Rx, mail: seq<Fragment>, past: seq<Fragment>, f: Fragment, k: nat, s: nat, port: nat, room: nat)
    requires OneFrame(mail, room, true) && AllEoe(mail) && Ended(mail) && 1 <= k < |mail| && f == mail[k]
    requires s < |past| && past[s..] == mail[..k] && Before(rx, past, s, port, room)
    ensures !Refused(rx, f, port, room)
  {
    InsideBefore(mail, room, k);
    RefusedInside(rx, past[s..], f, port);
  }

  /** Before the end of the frame there is no last fragment, and from its start on the receiver is inside. */
  lemma NotAtEnd(all: seq<Fragment>, k: nat, port: nat, room: nat, s: nat, t: nat, told: nat)
    requires k < t && FrameAt(all, s, t, port, room, told)
    ensures !IsLast(all[k].info1)
    ensures k >= s ==> Inside(all[s..k + 1], room, true)
    ensures k < s ==> !Inside(all[k..k + 1], room, true)
  {
    if k >= s {
      var mail := all[s..t + 1];
      FrameParts(all, s, t, port, room, told, k + 1, mail);
      InsideBefore(mail, room, k + 1 - s);
      NoneLast(mail, k + 1 - s);
      assert mail[..k + 1 - s][k - s] == all[k];
    } else {
      PassedPart(all, s, t, port, room, told, k);
      assert all[k..k + 1] == [all[k]];
      FirstAlone(all[k], room, true);
    }
  }

  lemma {:induction false} RecvComplete(rx: Rx, all: seq<Fragment>, k: nat, port: nat, room: nat, s: nat, t: nat,
                                        told: nat)
    requires k <= t && FrameAt(all, s, t, port, room, told) && Before(rx, all[..k], Begun(k, s), port, room)
    ensures Recv(rx, all[k..], port).0 == Received(told)
    decreases t - k
  {
    var f := all[k];
    var rx' := Copy(Started(rx, f), f.data, room);
    RecvNext(rx, all[k..], port, rx');
    NextRefusedNot(rx, all, k, port, room, s, t, told);
    if k == t {
      EndOfFrame(rx, all, port, room, s, t, told, rx');
    } else {
      MiddleOfFrame(rx, all, k, port, room, s, t, told, rx');
      assert all[k..][1..] == all[k + 1..];
      RecvComplete(rx', all, k + 1, port, room, s, t, told);
    }
  }

  lemma MiddleOfFrame(rx: Rx, all: seq<Fragment>, k: nat, port: nat, room: nat, s: nat, t: nat, told: nat, rx': Rx)
    requires k < t && FrameAt(all, s, t, port, room, told) && Before(rx, all[..k], Begun(k, s), port, room)
    requires all[k].mtype == ECT_MBXT_EOE && !Refused(rx, all[k], port, room)
    requires rx' == Copy(Started(rx, all[k]), all[k].data, room)
    ensures !IsLast(all[k].info1) && Before(rx', all[..k + 1], Begun(k + 1, s), port, room)
  {
    var next := all[..k + 1];
    assert next == all[..k] + [all[k]];
    NotAtEnd(all, k, port, room, s, t, told);
    TakenGoesOn(rx, all[..k], Begun(k, s), all[k], port, room, rx', next);
    assert next[Begun(k, s)..] == if k >= s then all[s..k + 1] else all[k..k + 1];
  }

  lemma EndOfFrame(rx: Rx, all: seq<Fragment>, port: nat, room: nat, s: nat, t: nat, told: nat, rx': Rx)
    requires FrameAt(all, s, t, port, room, told) && Before(rx, all[..t], s, port, room)
    requires all[t].mtype == ECT_MBXT_EOE && !Refused(rx, all[t], port, room)
    requires rx' == Copy(Started(rx, all[t]), all[t].data, room)
    ensures IsLast(all[t].info1) && ReceivedSize(rx'.offset, all[t].info1) == told
  {
    var next := all[..t + 1];
    assert next == all[..t] + [all[t]] && all[s..t + 1][t - s] == all[t];
    TakenEnds(rx, all[..t], s, all[t], port, room, rx', next);
    SameSize(all, s, t, port, room, told, ReceivedSize(rx'.offset, all[t].info1), rx'.buf);
  }

  lemma SameSize(all: seq<Fragment>, s: nat, t: nat, port: nat, room: nat, told: nat, size: nat, buf: seq<byte>)
    requires FrameAt(all, s, t, port, room, told) && Sound(all[..t + 1], s, t, port, room, Received(size), buf)
    ensures size == told
  {
    assert all[..t + 1][s..t + 1] == all[s..t + 1];
  }

  /** For whatever mail comes in, a frame is received only if the mailboxes since some first fragment for the port are
      one frame that ends there, its data are in the buffer, and the size is theirs; but a fragment may have the number
      0 instead of the next one. And such a frame is received if nothing but first fragments that do not fit come
      before it. */
  lemma ReceivedSound(buf: seq<byte>, mail: seq<Fragment>, port: nat)
    ensures var (outcome, buf') := Recv(Rx(0, 0, 0, 0, buf), mail, port);
      && (outcome.Received? ==> exists s, t :: Sound(mail, s, t, port, |buf|, outcome, buf'))
      && forall s, t, told :: FrameAt(mail, s, t, port, |buf|, told) ==> outcome == Received(told)
  {
    var rx := Rx(0, 0, 0, 0, buf);
    var (outcome, buf') := Recv(rx, mail, port);
    assert Before(rx, [], 0, port, |buf|);
    if outcome.Received? {
      assert [] + mail == mail;
      var s, t := RecvSound(rx, [], 0, mail, port, |buf|, mail, outcome, buf');
    }
    forall s, t, told | FrameAt(mail, s, t, port, |buf|, told)
      ensures outcome == Received(told)
    {
      assert mail[..0] == [] && mail[0..] == mail;
      RecvComplete(rx, mail, 0, port, |buf|, s, t, told);
    }
  }

  /** What is received is a frame with the numbers 0, 1, 2 and so on if and only if no other first fragment is in it. */
  lemma StrictIff(mail: seq<Fragment>, room: nat, told: nat)
    requires Reports(mail, room, told, true)
    ensures Reports(mail, room, told, false) <==>
              forall i :: 1 <= i < |mail| && mail[i].mtype == ECT_MBXT_EOE ==> !IsFirst(mail[i])
  {
    forall i | 1 <= i < |mail| && mail[i].mtype == ECT_MBXT_EOE
      ensures FollowsAt(mail, i, room, false) <==> !IsFirst(mail[i])
    {
      assert FollowsAt(mail, i, room, true);
    }
  }

  /** Some bytes of a frame, then another first fragment, which tells their number as the size of its frame. */
  predicate Stray(x: Fragment, y: Fragment, port: nat, room: nat) {
    && Welcome(x, port, room) && IsFirst(y) && FrameNoOf(x.info2) == FrameNoOf(y.info2)
    && !IsLast(x.info1) && IsLast(y.info1) && !IsStamped(y.info1)
    && BlocksOf(y.info2) * 32 == |x.data| && |x.data| + |y.data| <= room
  }

  /** They are received as one frame. */
  lemma StrayFirstTaken(x: Fragment, y: Fragment, port: nat, buf: seq<byte>, mail: seq<Fragment>)
    requires Stray(x, y, port, |buf|) && mail == [x, y]
    ensures var (outcome, buf') := Recv(Rx(0, 0, 0, 0, buf), mail, port);
      outcome == Received(|x.data| + |y.data|) && x.data + y.data <= buf'
  {
    var rx0 := Rx(0, 0, 0, 0, buf);
    var rx1 := Copy(Started(rx0, x), x.data, |buf|);
    var rx2 := Copy(Started(rx1, y), y.data, |buf|);
    RecvNext(rx0, mail, port, rx1);
    assert mail[1..] == [y];
    RecvNext(rx1, [y], port, rx2);
    assert x.data <= rx1.buf;
    Appends(rx1.buf, x.data, y.data);
  }

  /** So it is with 32 bytes of a frame of 64, and a short frame of the same number. */
  lemma OneStray(a: seq<byte>, b: seq<byte>, frameNo: nat, port: nat, buf: seq<byte>)
    returns (x: Fragment, y: Fragment)
    requires |a| == 32 && 1 <= |b| <= 32 && frameNo < 0x10 && port < 0x10 && |buf| == 64
    ensures x.data == a && y.data == b && BlocksOf(x.info2) == 2 && BlocksOf(y.info2) == Blocks(|b|)
    ensures IsFirst(x) && IsFirst(y) && IsLast(y.info1) && !IsLast(x.info1)
    ensures Recv(Rx(0, 0, 0, 0, buf), [x, y], port).0 == Received(32 + |b|)
  {
    x := Fragment(ECT_MBXT_EOE, Info1(port, false, false), Info2(0, 2, frameNo), a);
    y := Fragment(ECT_MBXT_EOE, Info1(port, true, false), Info2(0, 1, frameNo), b);
    Info1Read(port, false, false);
    Info1Read(port, true, false);
    Info2Read(0, 2, frameNo);
    Info2Read(0, 1, frameNo);
    StrayFirstTaken(x, y, port, buf, [x, y]);
  }
}
