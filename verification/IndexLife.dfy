/** The life of frame indices: handed out, sent, waited for, freed and handed out again, by any number of threads
    in any order, while replies arrive. Each use of an index gets its own reply, at most once. */
module IndexLife {
  import opened Basics
  import opened Bytes
  import opened Transport
  import I = Interleaving

  /** One send of an index: the n-th since the start. */
  datatype Use = Use(idx: nat, n: nat)

  /** What threads do, and what the network does: a packet, or nothing for one poll, comes in. */
  datatype Step = GetIndex(idx: nat) | Send(idx: nat, length: nat) | Arrive(p: Option<Packet>)
                | Check(idx: nat) | Poll(idx: nat) | Release(idx: nat)

  /** A call that returned a work counter for a use of its index. */
  datatype Delivery = Delivery(use: Use, wkc: int, body: seq<byte>)

  /** The receive stack, the number of uses of each index, the replies that arrived and the lengths sent by use,
      and what was delivered. */
  datatype Life = Life(s: Stack, uses: seq<nat>, came: map<Use, seq<byte>>, lens: map<Use, nat>, log: seq<Delivery>)

  predicate Sound(l: Life) {
    Valid(l.s) && |l.uses| == EC_MAXBUF
  }

  /** The current use of an index. */
  function Now(l: Life, idx: nat): Use
    requires Sound(l) && idx < EC_MAXBUF
  {
    Use(idx, l.uses[idx])
  }

  /** A packet that any waiter may take. */
  predicate ForSlot(p: Option<Packet>) {
    p.Some? && p.value.etype == ETH_P_ECAT && |p.value.body| >= 4 && IndexOf(p.value.body) < EC_MAXBUF
  }

  predicate WellFormed(t: Step) {
    match t
    case Arrive(p) => p.Some? ==> 4 <= |p.value.body| <= BODYSIZE
    case Send(idx, length) => idx < EC_MAXBUF && length <= BODYSIZE
    case _ => t.idx < EC_MAXBUF
  }

  function Delivered(l: Life, idx: nat, next: (Stack, int)): Life
    requires Sound(l) && idx < EC_MAXBUF && Valid(next.0)
  {
    l.(s := next.0, log :=
       if next.1 > EC_NOFRAME then l.log + [Delivery(Now(l, idx), next.1, next.0.rxbuf[idx])] else l.log)
  }

  /** A slot waits for the reply to its current use. */
  predicate Waits(l: Life, idx: nat)
    requires Sound(l) && idx < EC_MAXBUF
  {
    l.s.stat[idx] == Tx && Now(l, idx) !in l.came
  }

  /** One step of a run. */
  function Take(l: Life, t: Step): (r: Life)
    requires Sound(l) && WellFormed(t)
    ensures Sound(r)
  {
    match t
    case GetIndex(idx) => l.(s := l.s.(stat := l.s.stat[idx := Alloc]))
    case Send(idx, length) =>
      var n := l.uses[idx] + 1;
      l.(s := l.s.(stat := l.s.stat[idx := Tx], txlen := l.s.txlen[idx := length]), uses := l.uses[idx := n],
         lens := l.lens[Use(idx, n) := length])
    case Arrive(p) =>
      var came := if ForSlot(p) && Waits(l, IndexOf(p.value.body))
          then l.came[Now(l, IndexOf(p.value.body)) := p.value.body] else l.came;
      l.(s := l.s.(wire := l.s.wire + [p]), came := came)
    case Check(idx) =>
      StepsKeepValid(l.s, idx);
      Delivered(l, idx, CheckBuffer(l.s, idx))
    case Poll(idx) =>
      StepsKeepValid(l.s, idx);
      Delivered(l, idx, PollSocket(l.s, idx))
    case Release(idx) => l.(s := l.s.(stat := l.s.stat[idx := Empty]))
  }

  // ----- what is on the wire for an index

  predicate NoneFor(wire: seq<Option<Packet>>, idx: nat) {
    forall k :: 0 <= k < |wire| ==> !I.At(wire, k, idx)
  }

  /** Exactly one packet for the index is under way, with this contents. */
  predicate OneFor(wire: seq<Option<Packet>>, idx: nat, body: seq<byte>) {
    exists k :: 0 <= k < |wire| && OneAt(wire, k, idx, body)
  }

  predicate OneAt(wire: seq<Option<Packet>>, k: nat, idx: nat, body: seq<byte>) {
    I.At(wire, k, idx) && wire[k].value.body == body && forall j :: 0 <= j < |wire| && j != k ==> !I.At(wire, j, idx)
  }

  /** What threads and the network keep to: only empty slots are handed out; an index is sent by its owner, and not
      while a packet for it is under way; it is waited for after it was sent; a reply to it comes once in each use,
      or late, before the next. */
  predicate Allowed(l: Life, t: Step)
    requires Sound(l)
  {
    WellFormed(t) &&
    match t
    case GetIndex(idx) => l.s.stat[idx] == Empty
    case Send(idx, length) => (l.s.stat[idx] == Alloc || l.s.stat[idx] == Tx) && NoneFor(l.s.wire, idx)
    case Arrive(p) => ForSlot(p) ==>
      var idx := IndexOf(p.value.body);
      Idle(l.s.stat[idx]) || (Waits(l, idx) && I.FullReply(p.value.body, l.s.txlen[idx]))
    case Check(idx) => !Idle(l.s.stat[idx])
    case Poll(idx) => !Idle(l.s.stat[idx])
    case Release(idx) => true
  }

  predicate Idle(stat: BufState) { stat == Empty || stat == Alloc }

  // ----- the invariant

  predicate Logged(log: seq<Delivery>, u: Use) {
    exists k :: 0 <= k < |log| && log[k].use == u
  }

  /** Every delivery is of the reply to its use, and no use has two. */
  predicate LogOk(l: Life) {
    && (forall k :: 0 <= k < |l.log| ==> IsReply(l, l.log[k]))
    && forall j, k :: 0 <= j < k < |l.log| ==> l.log[j].use != l.log[k].use
  }

  predicate IsReply(l: Life, d: Delivery) {
    && d.use in l.came && d.use in l.lens
    && d.wkc == WkcOf(l.came[d.use]) && I.Holds(d.body, l.lens[d.use], l.came[d.use])
  }

  /** Replies are recorded for uses there were. */
  predicate CameOk(l: Life)
    requires Sound(l)
  {
    forall u :: u in l.came ==> u.idx < EC_MAXBUF && u.n <= l.uses[u.idx]
  }

  /** A reply of the current use is under way, or held for its waiter, or was delivered. */
  predicate SlotOk(l: Life, idx: nat)
    requires Sound(l) && idx < EC_MAXBUF
  {
    var u := Now(l, idx);
    Idle(l.s.stat[idx]) ||
    (&& u in l.lens && l.lens[u] == l.s.txlen[idx] && (u in l.came ==> I.FullReply(l.came[u], l.lens[u]))
     && match l.s.stat[idx]
        case Tx => !Logged(l.log, u) && if u in l.came then OneFor(l.s.wire, idx, l.came[u]) else NoneFor(l.s.wire, idx)
        case Rcvd => !Logged(l.log, u) && u in l.came && I.Holds(l.s.rxbuf[idx], l.lens[u], l.came[u])
          && NoneFor(l.s.wire, idx)
        case Complete => Logged(l.log, u) && NoneFor(l.s.wire, idx)
        case _ => false)
  }

  predicate Inv(l: Life) {
    Sound(l) && LogOk(l) && CameOk(l) && forall idx :: 0 <= idx < EC_MAXBUF ==> SlotOk(l, idx)
  }

  // ----- wires

  lemma AtGrows(wire: seq<Option<Packet>>, p: Option<Packet>, idx: nat)
    ensures forall k {:trigger I.At(wire + [p], k, idx)} :: 0 <= k < |wire| ==>
            I.At(wire + [p], k, idx) == I.At(wire, k, idx)
    ensures I.At(wire + [p], |wire|, idx) == I.At([p], 0, idx)
  {
  }

  lemma AtShrinks(wire: seq<Option<Packet>>, idx: nat)
    requires wire != []
    ensures forall k {:trigger I.At(wire[1..], k, idx)} :: 0 <= k < |wire| - 1 ==>
            I.At(wire[1..], k, idx) == I.At(wire, k + 1, idx)
  {
  }

  lemma WireGrows(wire: seq<Option<Packet>>, p: Option<Packet>, idx: nat)
    requires NoneFor(wire, idx)
    ensures if I.At([p], 0, idx) then OneFor(wire + [p], idx, p.value.body) else NoneFor(wire + [p], idx)
  {
    AtGrows(wire, p, idx);
    if I.At([p], 0, idx) { assert OneAt(wire + [p], |wire|, idx, p.value.body); }
  }

  lemma OneGrows(wire: seq<Option<Packet>>, p: Option<Packet>, idx: nat, body: seq<byte>)
    requires OneFor(wire, idx, body) && !I.At([p], 0, idx)
    ensures OneFor(wire + [p], idx, body)
  {
    AtGrows(wire, p, idx);
    var k :| 0 <= k < |wire| && OneAt(wire, k, idx, body);
    assert OneAt(wire + [p], k, idx, body);
  }

  lemma WireShrinks(wire: seq<Option<Packet>>, idx: nat)
    requires wire != [] && NoneFor(wire, idx)
    ensures NoneFor(wire[1..], idx) && !I.At(wire, 0, idx)
  {
    AtShrinks(wire, idx);
  }

  lemma OneShrinks(wire: seq<Option<Packet>>, idx: nat, body: seq<byte>)
    requires wire != [] && OneFor(wire, idx, body)
    ensures if I.At(wire, 0, idx) then wire[0].value.body == body && NoneFor(wire[1..], idx)
            else OneFor(wire[1..], idx, body)
  {
    AtShrinks(wire, idx);
    var k :| 0 <= k < |wire| && OneAt(wire, k, idx, body);
    if k > 0 { assert OneAt(wire[1..], k - 1, idx, body); }
  }

  // ----- every step keeps it

  /** Of the other slots and the log nothing changes. */
  lemma OtherSlot(l: Life, r: Life, idx: nat)
    requires Sound(l) && Sound(r) && idx < EC_MAXBUF && SlotOk(l, idx)
    requires r.s.stat[idx] == l.s.stat[idx] && r.s.rxbuf[idx] == l.s.rxbuf[idx] && r.s.txlen[idx] == l.s.txlen[idx]
    requires r.uses[idx] == l.uses[idx] && (Logged(r.log, Now(l, idx)) <==> Logged(l.log, Now(l, idx)))
    requires forall u {:trigger u in r.came} {:trigger u in l.came} :: u == Now(l, idx) ==>
             (u in r.came <==> u in l.came)
    requires Now(l, idx) in l.came ==> Now(l, idx) in r.came && r.came[Now(l, idx)] == l.came[Now(l, idx)]
    requires Now(l, idx) in l.lens ==> Now(l, idx) in r.lens && r.lens[Now(l, idx)] == l.lens[Now(l, idx)]
    requires NoneFor(l.s.wire, idx) ==> NoneFor(r.s.wire, idx)
    requires l.s.stat[idx] == Tx && Now(l, idx) in l.came && OneFor(l.s.wire, idx, l.came[Now(l, idx)]) ==>
               OneFor(r.s.wire, idx, l.came[Now(l, idx)])
    ensures SlotOk(r, idx)
  {
  }

  lemma GetIndexKeeps(l: Life, idx: nat)
    requires Inv(l) && Allowed(l, GetIndex(idx))
    ensures Inv(Take(l, GetIndex(idx)))
  {
    var r := Take(l, GetIndex(idx));
    forall i | 0 <= i < EC_MAXBUF
      ensures SlotOk(r, i)
    {
      assert SlotOk(l, i);
      if i != idx { OtherSlot(l, r, i); }
    }
  }

  lemma ReleaseKeeps(l: Life, idx: nat)
    requires Inv(l) && Allowed(l, Release(idx))
    ensures Inv(Take(l, Release(idx)))
  {
    var r := Take(l, Release(idx));
    forall i | 0 <= i < EC_MAXBUF
      ensures SlotOk(r, i)
    {
      assert SlotOk(l, i);
      if i != idx { OtherSlot(l, r, i); }
    }
  }

  /** Nothing was delivered for a use to come. */
  lemma FreshUse(l: Life, u: Use)
    requires Sound(l) && LogOk(l) && CameOk(l) && u.idx < EC_MAXBUF && u.n > l.uses[u.idx]
    ensures u !in l.came && !Logged(l.log, u)
  {
  }

  lemma SendKeeps(l: Life, idx: nat, length: nat)
    requires Inv(l) && Allowed(l, Send(idx, length))
    ensures Inv(Take(l, Send(idx, length)))
  {
    var r := Take(l, Send(idx, length));
    var u := Now(r, idx);
    FreshUse(l, u);
    forall k | 0 <= k < |r.log|
      ensures IsReply(r, r.log[k])
    {
      assert IsReply(l, l.log[k]);
    }
    forall i | 0 <= i < EC_MAXBUF
      ensures SlotOk(r, i)
    {
      assert SlotOk(l, i);
      if i != idx { OtherSlot(l, r, i); }
    }
  }

  lemma ArriveKeeps(l: Life, p: Option<Packet>)
    requires Inv(l) && Allowed(l, Arrive(p))
    ensures Inv(Take(l, Arrive(p)))
  {
    var r := Take(l, Arrive(p));
    forall k | 0 <= k < |r.log|
      ensures IsReply(r, r.log[k])
    {
      assert IsReply(l, l.log[k]);
      assert Logged(l.log, l.log[k].use);
    }
    forall i | 0 <= i < EC_MAXBUF
      ensures SlotOk(r, i)
    {
      assert SlotOk(l, i);
      ArriveSlot(l, p, r, i);
    }
  }

  lemma ArriveSlot(l: Life, p: Option<Packet>, r: Life, i: nat)
    requires Sound(l) && i < EC_MAXBUF && SlotOk(l, i) && Allowed(l, Arrive(p)) && r == Take(l, Arrive(p))
    ensures SlotOk(r, i)
  {
    var wire := l.s.wire;
    if NoneFor(wire, i) { WireGrows(wire, p, i); }
    if !I.At([p], 0, i) {
      if l.s.stat[i] == Tx && Now(l, i) in l.came && OneFor(wire, i, l.came[Now(l, i)]) {
        OneGrows(wire, p, i, l.came[Now(l, i)]);
      }
      OtherSlot(l, r, i);
    }
  }

  /** One delivery more. */
  lemma LogNext(l: Life, r: Life, d: Delivery)
    requires LogOk(l) && r.log == l.log + [d] && r.came == l.came && r.lens == l.lens && IsReply(r, d)
             && !Logged(l.log, d.use)
    ensures LogOk(r) && Logged(r.log, d.use)
    ensures forall u :: u != d.use ==> (Logged(r.log, u) <==> Logged(l.log, u))
  {
    assert r.log[|l.log|] == d;
    forall k | 0 <= k < |r.log|
      ensures IsReply(r, r.log[k])
    {
      if k < |l.log| { assert IsReply(l, l.log[k]); }
    }
    forall u | Logged(l.log, u)
      ensures Logged(r.log, u)
    {
      var k :| 0 <= k < |l.log| && l.log[k].use == u;
      assert r.log[k].use == u;
    }
  }

  /** A held reply has the work counter of the reply. */
  lemma HeldWkc(buf: seq<byte>, n: nat, body: seq<byte>)
    requires I.Holds(buf, n, body) && I.FullReply(body, n)
    ensures WkcOf(buf) == WkcOf(body)
  {
    assert forall k :: 0 <= k < n ==> buf[k] == buf[..n][k] && body[k] == body[..n][k];
  }

  lemma CheckKeeps(l: Life, idx: nat)
    requires Inv(l) && Allowed(l, Check(idx))
    ensures Inv(Take(l, Check(idx)))
  {
    var r := Take(l, Check(idx));
    assert SlotOk(l, idx);
    if l.s.stat[idx] == Rcvd {
      var u := Now(l, idx);
      HeldWkc(l.s.rxbuf[idx], l.lens[u], l.came[u]);
      LogNext(l, r, Delivery(u, WkcOf(l.s.rxbuf[idx]), l.s.rxbuf[idx]));
      forall i | 0 <= i < EC_MAXBUF
        ensures SlotOk(r, i)
      {
        assert SlotOk(l, i);
        if i != idx { OtherSlot(l, r, i); }
      }
    } else {
      assert r == l;
    }
  }

  /** A packet for index i that another waiter reads is kept for its waiter, or dropped if nobody waits. */
  lemma PollForOther(s: Stack, w: nat, i: nat)
    requires Valid(s) && w < EC_MAXBUF && i < EC_MAXBUF && w != i && I.At(s.wire, 0, i)
    ensures var (s', rval) := PollSocket(s, w);
      && rval <= EC_NOFRAME && (s.stat[i] != Tx ==> s'.stat[i] == s.stat[i] && s'.rxbuf[i] == s.rxbuf[i])
  {
  }

  /** The waiter reads the reply to its own use. */
  lemma PollOwn(l: Life, w: nat, r: Life)
    requires Inv(l) && Allowed(l, Poll(w)) && r == Take(l, Poll(w)) && I.At(l.s.wire, 0, w)
    ensures LogOk(r) && SlotOk(r, w) && forall u :: u != Now(l, w) ==> (Logged(r.log, u) <==> Logged(l.log, u))
  {
    var u := Now(l, w);
    assert SlotOk(l, w);
    if NoneFor(l.s.wire, w) { WireShrinks(l.s.wire, w); }
    OneShrinks(l.s.wire, w, l.came[u]);
    I.OwnEffect(l.s, w, w);
    StepsKeepValid(l.s, w);
    LogNext(l, r, Delivery(u, WkcOf(l.came[u]), r.s.rxbuf[w]));
  }

  /** The slots of the others. */
  lemma PollSlot(l: Life, w: nat, r: Life, i: nat)
    requires Inv(l) && Allowed(l, Poll(w)) && r == Take(l, Poll(w)) && i < EC_MAXBUF && l.s.wire != []
    requires (i != w || !I.At(l.s.wire, 0, w)) && (Logged(r.log, Now(l, i)) <==> Logged(l.log, Now(l, i)))
    ensures SlotOk(r, i)
  {
    var wire, u := l.s.wire, Now(l, i);
    assert SlotOk(l, i);
    StepsKeepValid(l.s, w);
    if NoneFor(wire, i) { WireShrinks(wire, i); }
    if u in l.came && OneFor(wire, i, l.came[u]) { OneShrinks(wire, i, l.came[u]); }
    if I.At(wire, 0, i) {
      PollForOther(l.s, w, i);
      if l.s.stat[i] == Tx { I.OwnEffect(l.s, w, i); }
    } else {
      I.PollEffect(l.s, w, i);
      OtherSlot(l, r, i);
    }
  }

  lemma PollKeeps(l: Life, w: nat)
    requires Inv(l) && Allowed(l, Poll(w))
    ensures Inv(Take(l, Poll(w)))
  {
    var r := Take(l, Poll(w));
    if l.s.wire == [] {
      assert r == l;
    } else {
      I.PollEffect(l.s, w, w);
      if I.At(l.s.wire, 0, w) { PollOwn(l, w, r); }
      forall i | 0 <= i < EC_MAXBUF
        ensures SlotOk(r, i)
      {
        if i != w || !I.At(l.s.wire, 0, w) { PollSlot(l, w, r, i); }
      }
    }
  }

  // ----- runs

  lemma StepKeeps(l: Life, t: Step)
    requires Inv(l) && Allowed(l, t)
    ensures Inv(Take(l, t))
  {
    match t
    case GetIndex(idx) => GetIndexKeeps(l, idx);
    case Send(idx, length) => SendKeeps(l, idx, length);
    case Arrive(p) => ArriveKeeps(l, p);
    case Check(idx) => CheckKeeps(l, idx);
    case Poll(idx) => PollKeeps(l, idx);
    case Release(idx) => ReleaseKeeps(l, idx);
  }

  /** `r` is where a run of allowed steps leads. */
  predicate Runs(l: Life, steps: seq<Step>, r: Life)
    requires Sound(l)
    decreases |steps|
  {
    if steps == [] then r == l else Allowed(l, steps[0]) && Runs(Take(l, steps[0]), steps[1..], r)
  }

  /** Nothing is sent or under way. */
  predicate Start(l: Life) {
    Sound(l) && l.log == [] && l.came == map[] && l.s.wire == []
      && forall idx :: 0 <= idx < EC_MAXBUF ==> l.s.stat[idx] == Empty
  }

  lemma {:induction false} RunKeeps(l: Life, steps: seq<Step>, r: Life)
    requires Inv(l) && Runs(l, steps, r)
    ensures Inv(r)
    decreases |steps|
  {
    if steps != [] {
      StepKeeps(l, steps[0]);
      RunKeeps(Take(l, steps[0]), steps[1..], r);
    }
  }

  /** Over every run in which indices are handed out, sent, waited for and freed by any threads in any order: each
      use of an index delivers at most once, and nothing but the reply to that use; and until it is released, a reply
      that came is under way, held for its waiter, or delivered. */
  lemma EveryUseGetsItsReply(l: Life, steps: seq<Step>, r: Life)
    requires Start(l) && Runs(l, steps, r)
    ensures Sound(r) && LogOk(r) && forall idx :: 0 <= idx < EC_MAXBUF ==> SlotOk(r, idx)
  {
    RunKeeps(l, steps, r);
  }

  /** A waiter that asks once more after the wire ran dry has the reply to its use exactly if one came. */
  lemma AskOnceMore(l: Life, idx: nat)
    requires Inv(l) && idx < EC_MAXBUF && !Idle(l.s.stat[idx]) && l.s.wire == []
    ensures Logged(Take(l, Check(idx)).log, Now(l, idx)) <==> Now(l, idx) in l.came
  {
    var r, u := Take(l, Check(idx)), Now(l, idx);
    assert SlotOk(l, idx);
    CheckKeeps(l, idx);
    assert SlotOk(r, idx) && LogOk(r);
    if Logged(r.log, u) {
      var k :| 0 <= k < |r.log| && r.log[k].use == u;
      assert IsReply(r, r.log[k]);
    }
  }

  lemma {:induction false} RunsOn(l: Life, steps: seq<Step>, r: Life, t: Step)
    requires Sound(l) && Runs(l, steps, r) && Sound(r) && Allowed(r, t)
    ensures Runs(l, steps + [t], Take(r, t))
    decreases |steps|
  {
    if steps == [] {
      assert Runs(Take(r, t), [], Take(r, t));
    } else {
      assert (steps + [t])[1..] == steps[1..] + [t] && (steps + [t])[0] == steps[0];
      RunsOn(Take(l, steps[0]), steps[1..], r, t);
    }
  }

  lemma RunsLast(l: Life, steps: seq<Step>, k: nat, m: Life, r: Life)
    requires Sound(l) && k < |steps| && Runs(l, steps[..k], m) && Sound(m) && Allowed(m, steps[k])
             && r == Take(m, steps[k])
    ensures Runs(l, steps[..k + 1], r)
  {
    assert steps[..k + 1] == steps[..k] + [steps[k]];
    RunsOn(l, steps[..k], m, steps[k]);
  }

  /** An index is sent and its use given up. */
  lemma GivenUp(l: Life, steps: seq<Step>, length: nat) returns (r: Life)
    requires Start(l) && length <= BODYSIZE && |steps| >= 3 && steps[..3] == [GetIndex(0), Send(0, length), Release(0)]
    ensures Runs(l, steps[..3], r) && Sound(r) && r.s.stat[0] == Empty && r.s.wire == [] && r.uses[0] == l.uses[0] + 1
    ensures r.came == map[] && r.log == []
  {
    assert steps[0] == steps[..3][0] && steps[1] == steps[..3][1] && steps[2] == steps[..3][2];
    var l1 := Take(l, steps[0]);
    var l2 := Take(l1, steps[1]);
    r := Take(l2, steps[2]);
    RunsLast(l, steps, 0, l, l1);
    RunsLast(l, steps, 1, l1, l2);
    RunsLast(l, steps, 2, l2, r);
  }

  /** It is handed out again when the reply comes. */
  lemma LateReply(l: Life, p: Packet, length: nat) returns (r: Life)
    requires Start(l) && p.etype == ETH_P_ECAT && 4 <= |p.body| <= BODYSIZE && IndexOf(p.body) == 0
             && length <= BODYSIZE
    ensures Runs(l, [GetIndex(0), Send(0, length), Release(0), GetIndex(0), Arrive(Some(p))], r)
    ensures Inv(r) && r.s.stat[0] == Alloc && r.s.wire == [Some(p)] && r.uses[0] == l.uses[0] + 1
            && Now(r, 0) !in r.came
  {
    var steps := [GetIndex(0), Send(0, length), Release(0), GetIndex(0), Arrive(Some(p))];
    var l3 := GivenUp(l, steps, length);
    var l4 := Take(l3, steps[3]);
    r := Take(l4, steps[4]);
    RunsLast(l, steps, 3, l3, l4);
    RunsLast(l, steps, 4, l4, r);
    assert steps[..5] == steps;
    RunKeeps(l, steps, r);
  }

  /** Why an index must not be sent while a packet for it is under way, which is the one thing of these that the code
      does not see to: the packet is delivered to the new use, to which no reply came. */
  lemma LateReplyMisdelivered(l: Life, idx: nat, length: nat)
    requires Inv(l) && idx < EC_MAXBUF && l.s.stat[idx] == Alloc && length <= BODYSIZE && I.At(l.s.wire, 0, idx)
    ensures var r := Take(Take(l, Send(idx, length)), Poll(idx)); Logged(r.log, Now(r, idx)) && Now(r, idx) !in r.came
  {
    var sent := Take(l, Send(idx, length));
    var r := Take(sent, Poll(idx));
    FreshUse(l, Now(sent, idx));
    StepsKeepValid(sent.s, idx);
    assert r.log[|sent.log|].use == Now(r, idx);
  }
}
