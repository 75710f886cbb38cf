/** Any interleaving of any number of waiters, any arrival order: every reply reaches its own waiter
    exactly once. */
module Interleaving {
  import opened Basics
  import opened Bytes
  import opened Transport

  /** The two halves of a receive call; the lock makes each atomic. */
  datatype Step = Check(idx: nat) | Poll(idx: nat)

  /** A call that returned a work counter, with the contents of its rx buffer. */
  datatype Delivery = Delivery(idx: nat, wkc: int, body: seq<byte>)

  datatype Run = Run(s: Stack, log: seq<Delivery>)

  function StepOf(s: Stack, t: Step): (Stack, int)
    requires Valid(s) && t.idx < EC_MAXBUF
  {
    if t.Check? then CheckBuffer(s, t.idx) else PollSocket(s, t.idx)
  }

  function Take(r: Run, t: Step): (r': Run)
    requires Valid(r.s) && t.idx < EC_MAXBUF
    ensures Valid(r'.s)
  {
    StepsKeepValid(r.s, t.idx);
    var (s, rval) := StepOf(r.s, t);
    Run(s, if rval > EC_NOFRAME then r.log + [Delivery(t.idx, rval, s.rxbuf[t.idx])] else r.log)
  }

  predicate Indexed(steps: seq<Step>) {
    forall k :: 0 <= k < |steps| ==> steps[k].idx < EC_MAXBUF
  }

  /** A run is the steps of all waiters in the order they happened. */
  function RunAll(s: Stack, steps: seq<Step>): (r: Run)
    requires Valid(s) && Indexed(steps)
    ensures Valid(r.s)
  {
    if steps == [] then Run(s, []) else Take(RunAll(s, steps[..|steps| - 1]), steps[|steps| - 1])
  }

  function Deliveries(log: seq<Delivery>, idx: nat): nat {
    if log == [] then 0 else Deliveries(log[..|log| - 1], idx) + if log[|log| - 1].idx == idx then 1 else 0
  }

  // ----- what is on the wire

  predicate At(wire: seq<Option<Packet>>, k: nat, idx: nat) {
    k < |wire| && wire[k].Some? && Matches(wire[k].value, idx)
  }

  /** Position of the reply to idx on the wire; the length of the wire if there is none. */
  function Arrival(wire: seq<Option<Packet>>, idx: nat): (a: nat)
    ensures a <= |wire| && (a < |wire| ==> At(wire, a, idx))
  {
    if wire == [] || At(wire, 0, idx) then 0
    else
      var a := Arrival(wire[1..], idx);
      assert a < |wire[1..]| ==> At(wire, a + 1, idx);
      a + 1
  }

  lemma {:induction false} ArrivalIsFirst(wire: seq<Option<Packet>>, idx: nat, k: nat)
    requires At(wire, k, idx)
    ensures Arrival(wire, idx) <= k
  {
    if k > 0 && !At(wire, 0, idx) {
      assert At(wire[1..], k - 1, idx);
      ArrivalIsFirst(wire[1..], idx, k - 1);
    }
  }

  /** Everything else on the wire is not a reply to idx; it may be anything else. */
  ghost predicate OneReply(wire: seq<Option<Packet>>, idx: nat) {
    forall k :: Arrival(wire, idx) < k < |wire| ==> !At(wire, k, idx)
  }

  /** Buffer `buf` holds the first n bytes of the reply. */
  predicate Holds(buf: seq<byte>, n: nat, body: seq<byte>) {
    n <= |buf| && n <= |body| && buf[..n] == body[..n]
  }

  /** A reply is at least as long as what was sent, and its work counter lies inside that. */
  predicate FullReply(body: seq<byte>, n: nat) {
    4 <= n <= |body| && Word(body, 0) % 0x1000 + 2 <= n
  }

  function ReplyBody(s: Stack, idx: nat): seq<byte>
    requires Arrival(s.wire, idx) < |s.wire|
  {
    s.wire[Arrival(s.wire, idx)].value.body
  }

  /** The index was sent and nothing came yet; at most one reply is on the wire. */
  ghost predicate Awaited(s: Stack, idx: nat) {
    && Valid(s) && idx < EC_MAXBUF && s.stat[idx] == Tx && OneReply(s.wire, idx)
    && (Arrival(s.wire, idx) < |s.wire| ==> FullReply(ReplyBody(s, idx), s.txlen[idx]))
  }

  /** Number of polls that consumed the wire. */
  function Consumed(s0: Stack, s: Stack): int { |s0.wire| - |s.wire| }

  /** State of one awaited slot: waiting, holding the reply `body`, or done with it. */
  predicate SlotHolds(stat: BufState, buf: seq<byte>, came: bool, n: nat, body: seq<byte>) {
    if came then (stat == Rcvd || stat == Complete) && Holds(buf, n, body) else stat == Tx
  }

  /** All deliveries for idx are of the reply `body`; there is one if it is done, else none. */
  predicate LogOk(log: seq<Delivery>, idx: nat, done: bool, n: nat, body: seq<byte>) {
    && Deliveries(log, idx) == (if done then 1 else 0)
    && forall j :: 0 <= j < |log| && log[j].idx == idx ==>
       done && log[j].wkc == WkcOf(body) && Holds(log[j].body, n, body)
  }

  /** The reply to idx, if there is one. */
  function Reply(s: Stack, idx: nat): seq<byte> {
    if Arrival(s.wire, idx) < |s.wire| then ReplyBody(s, idx) else []
  }

  /** The run has read a prefix of the wire. */
  predicate Behind(s0: Stack, s: Stack) {
    |s.wire| <= |s0.wire| && s.wire == s0.wire[Consumed(s0, s)..] && s.txlen == s0.txlen
  }

  /** Conservation for one awaited index: a reply that came is either kept for its waiter or was
      delivered once, and every delivery is that reply. */
  ghost predicate SlotOk(s0: Stack, r: Run, idx: nat)
    requires Valid(s0) && Valid(r.s) && idx < EC_MAXBUF
  {
    && Behind(s0, r.s)
    && SlotHolds(r.s.stat[idx], r.s.rxbuf[idx], Arrival(s0.wire, idx) < Consumed(s0, r.s), s0.txlen[idx],
                 Reply(s0, idx))
    && LogOk(r.log, idx, r.s.stat[idx] == Complete, s0.txlen[idx], Reply(s0, idx))
  }

  lemma LogNext(log: seq<Delivery>, d: Delivery, idx: nat, done: bool, done': bool, n: nat, body: seq<byte>)
    requires LogOk(log, idx, done, n, body)
    requires if d.idx == idx then !done && done' && d.wkc == WkcOf(body) && Holds(d.body, n, body) else done' == done
    ensures LogOk(log + [d], idx, done', n, body)
  {
    assert (log + [d])[..|log|] == log;
  }

  /** What one read of the socket does to the slot of idx and to the wire. */
  lemma PollEffect(s: Stack, w: nat, idx: nat)
    requires Valid(s) && w < EC_MAXBUF && idx < EC_MAXBUF && s.wire != []
    ensures var (s', rval) := PollSocket(s, w);
      && Valid(s') && s'.wire == s.wire[1..] && s'.txlen == s.txlen
      && (rval > EC_NOFRAME ==> At(s.wire, 0, w))
      && (!At(s.wire, 0, idx) ==> s'.stat[idx] == s.stat[idx] && s'.rxbuf[idx] == s.rxbuf[idx])
  {
    StepsKeepValid(s, w);
  }

  /** What reading the reply of an awaited index does to its slot. */
  lemma OwnEffect(s: Stack, w: nat, idx: nat)
    requires Valid(s) && w < EC_MAXBUF && idx < EC_MAXBUF && At(s.wire, 0, idx) && s.stat[idx] == Tx
    requires FullReply(s.wire[0].value.body, s.txlen[idx])
    ensures var (s', rval) := PollSocket(s, w);
      var body := s.wire[0].value.body;
      && s'.stat[idx] == (if w == idx then Complete else Rcvd) && Holds(s'.rxbuf[idx], s.txlen[idx], body)
      && rval == (if w == idx then WkcOf(body) else EC_OTHERFRAME)
  {
    var p, rest := s.wire[0].value, s.(wire := s.wire[1..]);
  }

  lemma CheckKeepsSlot(s0: Stack, r: Run, idx: nat, w: nat)
    requires Awaited(s0, idx) && Valid(r.s) && w < EC_MAXBUF && SlotOk(s0, r, idx)
    ensures SlotOk(s0, Take(r, Check(w)), idx)
  {
    var body, n := Reply(s0, idx), s0.txlen[idx];
    if r.s.stat[w] == Rcvd {
      var d := Delivery(w, WkcOf(r.s.rxbuf[w]), r.s.rxbuf[w]);
      assert Take(r, Check(w)) == Run(r.s.(stat := r.s.stat[w := Complete]), r.log + [d]);
      if w == idx {
        LogNext(r.log, d, idx, false, true, n, body);
      } else {
        LogNext(r.log, d, idx, r.s.stat[idx] == Complete, r.s.stat[idx] == Complete, n, body);
      }
    }
  }

  /** The reply itself is delivered to its waiter, or kept for it. */
  lemma OwnPoll(s0: Stack, r: Run, idx: nat, w: nat)
    requires Awaited(s0, idx) && Valid(r.s) && w < EC_MAXBUF && SlotOk(s0, r, idx)
    requires At(r.s.wire, 0, idx)
    ensures SlotOk(s0, Take(r, Poll(w)), idx)
  {
    var c := Consumed(s0, r.s);
    var (s', rval) := PollSocket(r.s, w);
    PollEffect(r.s, w, idx);
    assert At(s0.wire, c, idx);
    ArrivalIsFirst(s0.wire, idx, c);
    assert Arrival(s0.wire, idx) == c;
    var body := Reply(s0, idx);
    assert r.s.wire[0].value.body == body;
    OwnEffect(r.s, w, idx);
    if rval > EC_NOFRAME {
      LogNext(r.log, Delivery(w, rval, s'.rxbuf[w]), idx, false, true, s0.txlen[idx], body);
    }
  }

  lemma StepKeepsSlot(s0: Stack, r: Run, idx: nat, t: Step)
    requires Awaited(s0, idx) && Valid(r.s) && t.idx < EC_MAXBUF && SlotOk(s0, r, idx)
    ensures SlotOk(s0, Take(r, t), idx)
  {
    match t
    case Check(w) => CheckKeepsSlot(s0, r, idx, w);
    case Poll(w) =>
      if r.s.wire == [] {
        assert Take(r, t) == r;
      } else if At(r.s.wire, 0, idx) {
        OwnPoll(s0, r, idx, w);
      }
  }

  /** Reordering and interleaving safety: whatever the waiters do in whatever order, and whatever
      arrives in whatever order, each awaited index keeps its reply for its waiter until it is
      delivered, delivers it at most once, and delivers nothing else. */
  lemma {:induction false} EveryRunDelivers(s0: Stack, steps: seq<Step>, idx: nat)
    requires Awaited(s0, idx) && Indexed(steps)
    ensures SlotOk(s0, RunAll(s0, steps), idx)
  {
    if steps == [] {
      assert s0.wire[0..] == s0.wire;
    } else {
      EveryRunDelivers(s0, steps[..|steps| - 1], idx);
      StepKeepsSlot(s0, RunAll(s0, steps[..|steps| - 1]), idx, steps[|steps| - 1]);
    }
  }

  /** A waiter that asks once more after the wire ran dry has its frame exactly once, if it ever came. */
  lemma WaitingSucceeds(s0: Stack, steps: seq<Step>, idx: nat)
    requires Awaited(s0, idx) && Indexed(steps) && RunAll(s0, steps).s.wire == []
    ensures Deliveries(RunAll(s0, steps + [Check(idx)]).log, idx) == if Arrival(s0.wire, idx) < |s0.wire| then 1 else 0
  {
    assert (steps + [Check(idx)])[..|steps|] == steps;
    EveryRunDelivers(s0, steps, idx);
    EveryRunDelivers(s0, steps + [Check(idx)], idx);
  }
}
