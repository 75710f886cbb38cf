/** The redundant ring: slaves between two network ports, and a cable that may be broken somewhere. */
module Ring {
  import opened Basics
  import opened Bytes
  import opened Transport
  import opened Interleaving
  import opened Redundancy

  /** A slave changes a passing frame, but neither its length nor the header of its first datagram. */
  type Slave = seq<byte> -> seq<byte>

  ghost predicate Passes(f: Slave) {
    forall b {:trigger f(b)} :: |f(b)| == |b| && (|b| >= 4 ==> f(b)[..4] == b[..4])
  }

  ghost predicate AllPass(slaves: seq<Slave>) {
    forall k :: 0 <= k < |slaves| ==> Passes(slaves[k])
  }

  /** The frame after it went through the slaves in order, once each. */
  function Through(slaves: seq<Slave>, b: seq<byte>): seq<byte> {
    if slaves == [] then b else Through(slaves[1..], slaves[0](b))
  }

  lemma {:induction false} ThroughKeepsHeader(slaves: seq<Slave>, b: seq<byte>)
    requires AllPass(slaves) && |b| >= 4
    ensures |Through(slaves, b)| == |b| && Through(slaves, b)[..4] == b[..4]
  {
    if slaves != [] { ThroughKeepsHeader(slaves[1..], slaves[0](b)); }
  }

  lemma {:induction false} ThroughAppend(x: seq<Slave>, y: seq<Slave>, b: seq<byte>)
    ensures Through(x + y, b) == Through(y, Through(x, b))
  {
    if x == [] {
      assert x + y == y;
    } else {
      assert (x + y)[1..] == x[1..] + y;
      ThroughAppend(x[1..], y, x[0](b));
    }
  }

  /** Where the ring is broken. `Broken(k, m)` leaves the first k slaves to the primary port, the ones
      from m on to the secondary port, and cuts off those between. */
  datatype Break = Intact | PrimaryCable | SecondaryCable | Broken(k: nat, m: nat)

  predicate IsBreak(cut: Break, n: nat) {
    cut.Broken? ==> 0 < cut.k <= cut.m < n
  }

  /** The slaves still connected to a port, in order. */
  function Reachable(slaves: seq<Slave>, cut: Break): seq<Slave>
    requires IsBreak(cut, |slaves|)
  {
    if cut.Broken? then slaves[..cut.k] + slaves[cut.m..] else slaves
  }

  // ----- what a wire yields

  ghost predicate Silent(wire: seq<Option<Packet>>, idx: nat) {
    Arrival(wire, idx) == |wire|
  }

  /** One reply to idx, from the given source, amid anything else. */
  ghost predicate Yields(wire: seq<Option<Packet>>, idx: nat, source: nat) {
    OneReply(wire, idx) && Arrival(wire, idx) < |wire| && wire[Arrival(wire, idx)].value.source == source
  }

  ghost predicate YieldsFrame(wire: seq<Option<Packet>>, idx: nat, source: nat, body: seq<byte>) {
    Yields(wire, idx, source) && wire[Arrival(wire, idx)].value.body == body
  }

  /** A frame of n bytes with index idx sent on the secondary port comes back through `slaves`, with the source
      address of the primary port that is in the transmit buffer. */
  ghost predicate ComesBack(answer: Medium, idx: nat, n: nat, slaves: seq<Slave>, again: int) {
    forall b {:trigger answer(b)} :: |b| == n && n >= 4 && b[3] == idx ==>
      answer(b).Some? && |answer(b).value| < again && YieldsFrame(answer(b).value, idx, RX_PRIM, Through(slaves, b))
  }

  /** What both wires yield after the frame went out on the primary port and the dummy on the other:
      slaves process frames in one direction only, and a frame turns back at an open end. */
  ghost predicate Delivers(slaves: seq<Slave>, cut: Break, frame: seq<byte>, idx: nat, wp: seq<Option<Packet>>,
                           ws: seq<Option<Packet>>, answer: Medium, again: nat)
    requires IsBreak(cut, |slaves|)
  {
    match cut
    case Intact => Yields(wp, idx, RX_SEC) && YieldsFrame(ws, idx, RX_PRIM, Through(slaves, frame))
    case PrimaryCable => Silent(wp, idx) && Yields(ws, idx, RX_SEC)
      && ComesBack(answer, idx, |frame|, slaves, again - |ws|)
    case SecondaryCable => YieldsFrame(wp, idx, RX_PRIM, Through(slaves, frame)) && Silent(ws, idx)
    case Broken(k, m) => YieldsFrame(wp, idx, RX_PRIM, Through(slaves[..k], frame)) && Yields(ws, idx, RX_SEC)
                         && ComesBack(answer, idx, |frame|, slaves[m..], again - |ws|)
  }

  /** The state after sending: both ports expect the index, the frame is in the transmit buffer. */
  ghost predicate Sent(p: Stack, s: Stack, tx: seq<byte>, idx: nat, frame: seq<byte>) {
    && ValidPair(p, s, tx) && idx < EC_MAXBUF && p.stat[idx] == s.stat[idx] == Tx
    && frame == tx[..p.txlen[idx]] && FullReply(frame, |frame|) && frame[3] == idx
  }

  /** The wait returned the work counter of `frame` and left it in the rx buffer. */
  predicate Result(o: Outcome, idx: nat, frame: seq<byte>) {
    idx < |o.prim.rxbuf| && o.wkc == WkcOf(frame) && Holds(o.prim.rxbuf[idx], |frame|, frame)
  }

  lemma ThroughIsReply(slaves: seq<Slave>, frame: seq<byte>)
    requires AllPass(slaves) && FullReply(frame, |frame|)
    ensures FullReply(Through(slaves, frame), |frame|) && Through(slaves, frame)[3] == frame[3]
    ensures |Through(slaves, frame)| == |frame|
  {
    ThroughKeepsHeader(slaves, frame);
  }

  /** The wait on one port that yields a reply. */
  lemma PortYields(s: Stack, idx: nat, ticks: nat, source: nat)
    requires Valid(s) && idx < EC_MAXBUF && s.stat[idx] == Tx && Yields(s.wire, idx, source) && ticks > |s.wire|
    ensures var (t, r) := Waiting(s, idx, ticks);
      && t.txlen == s.txlen && r > EC_NOFRAME && t.rxsa[idx] == source && t.wire == s.wire[Arrival(s.wire, idx) + 1..]
      && Took(t, idx, s.wire[Arrival(s.wire, idx)].value, r)
  {
    WaitFinds(s, idx, ticks);
  }

  lemma PortSilent(s: Stack, idx: nat, ticks: nat)
    requires Valid(s) && idx < EC_MAXBUF && s.stat[idx] == Tx && Silent(s.wire, idx) && ticks > |s.wire|
    ensures var (t, r) := Waiting(s, idx, ticks); t.txlen == s.txlen && r == EC_NOFRAME
  {
    WaitFinds(s, idx, ticks);
  }

  /** Behind the only reply comes nothing more. */
  lemma {:induction false} RestIsSilent(wire: seq<Option<Packet>>, idx: nat, k: nat)
    requires k <= |wire| && forall j :: k <= j < |wire| ==> !At(wire, j, idx)
    ensures Silent(wire[k..], idx)
    decreases |wire| - k
  {
    if k < |wire| {
      RestIsSilent(wire, idx, k + 1);
      assert wire[k..][1..] == wire[k + 1..];
      assert !At(wire, k, idx);
    }
  }

  lemma {:induction false} SilentAppend(x: seq<Option<Packet>>, y: seq<Option<Packet>>, idx: nat)
    requires Silent(x, idx)
    ensures Arrival(x + y, idx) == |x| + Arrival(y, idx)
  {
    if x == [] {
      assert x + y == y;
    } else {
      assert (x + y)[1..] == x[1..] + y;
      SilentAppend(x[1..], y, idx);
    }
  }

  /** A reply that comes in behind other packets. */
  lemma YieldsBehind(x: seq<Option<Packet>>, y: seq<Option<Packet>>, idx: nat, source: nat, body: seq<byte>)
    requires Silent(x, idx) && YieldsFrame(y, idx, source, body)
    ensures YieldsFrame(x + y, idx, source, body)
  {
    SilentAppend(x, y, idx);
    forall k | Arrival(x + y, idx) < k < |x + y|
      ensures !At(x + y, k, idx)
    {
      assert !At(y, k - |x|, idx);
    }
  }

  /** The second try yields the frame through the slaves behind the break. */
  lemma RetryYields(p: Stack, s: Stack, tx: seq<byte>, idx: nat, ticks: nat, answer: Medium, wkc: int,
                    slaves: seq<Slave>, b: seq<byte>)
    requires ValidPair(p, s, tx) && idx < EC_MAXBUF && ValidMedium(answer) && AllPass(slaves)
    requires Silent(s.wire, idx) && b == tx[..p.txlen[idx]] && FullReply(b, |b|) && b[3] == idx
    requires ComesBack(answer, idx, |b|, slaves, ticks - |s.wire|)
    ensures Result(Retry(p, s, tx, idx, ticks, answer, wkc), idx, Through(slaves, b))
  {
    var t := Through(slaves, b);
    assert FullReply(t, |b|) && |t| == |b| by { ThroughIsReply(slaves, b); }
    SecondTry(s, idx, ticks, answer(b), t, |b|);
    CopyHolds(p, Waiting(Transmit(s, idx, answer(b)), idx, ticks).0, idx, t);
  }

  lemma SecondTry(s: Stack, idx: nat, ticks: nat, a: Arrivals, t: seq<byte>, n: nat)
    requires Valid(s) && idx < EC_MAXBUF && ValidArrivals(a) && Silent(s.wire, idx)
    requires a.Some? && |a.value| < ticks - |s.wire| && YieldsFrame(a.value, idx, RX_PRIM, t)
    requires n == s.txlen[idx] && FullReply(t, n)
    ensures var (s', r) := Waiting(Transmit(s, idx, a), idx, ticks);
      s'.txlen == s.txlen && r == WkcOf(t) && Holds(s'.rxbuf[idx], n, t)
  {
    YieldsBehind(s.wire, a.value, idx, RX_PRIM, t);
    PortYields(Transmit(s, idx, a), idx, ticks, RX_PRIM);
  }

  lemma CopyHolds(p: Stack, s: Stack, idx: nat, t: seq<byte>)
    requires Valid(p) && Valid(s) && idx < EC_MAXBUF && p.txlen[idx] == |t| && Holds(s.rxbuf[idx], |t|, t)
    ensures Holds(CopyResult(p, s, idx).rxbuf[idx], |t|, t)
  {
  }

  /** What the secondary port holds after its dummy came in. */
  lemma DummyIn(s: Stack, idx: nat, ticks: nat)
    requires Valid(s) && idx < EC_MAXBUF && s.stat[idx] == Tx && Yields(s.wire, idx, RX_SEC) && ticks > |s.wire|
    ensures var (t, r) := Waiting(s, idx, ticks);
      t.txlen == s.txlen && r > EC_NOFRAME && t.rxsa[idx] == RX_SEC && Silent(t.wire, idx) && |t.wire| <= |s.wire|
  {
    PortYields(s, idx, ticks, RX_SEC);
    RestIsSilent(s.wire, idx, Arrival(s.wire, idx) + 1);
  }

  lemma MoreTime(answer: Medium, idx: nat, n: nat, slaves: seq<Slave>, again: int, more: int)
    requires ComesBack(answer, idx, n, slaves, again) && again <= more
    ensures ComesBack(answer, idx, n, slaves, more)
  {
  }

  /** Both dummies and frames pass all slaves: the secondary port has the result. */
  lemma IntactWait(slaves: seq<Slave>, p: Stack, s: Stack, tx: seq<byte>, idx: nat, frame: seq<byte>, ticks: nat,
                   again: nat, answer: Medium)
    requires Sent(p, s, tx, idx, frame) && AllPass(slaves) && ValidMedium(answer) && ticks > |p.wire|
             && ticks > |s.wire|
    requires Delivers(slaves, Intact, frame, idx, p.wire, s.wire, answer, again)
    ensures Result(WaitRed(p, s, tx, true, idx, ticks, again, answer), idx, Through(slaves, frame))
  {
    var t := Through(slaves, frame);
    ThroughIsReply(slaves, frame);
    PortYields(p, idx, ticks, RX_SEC);
    PortYields(s, idx, ticks, RX_PRIM);
    CopyHolds(Waiting(p, idx, ticks).0, Waiting(s, idx, ticks).0, idx, t);
  }

  /** The primary port is cut off: the second try goes through all slaves. */
  lemma PrimaryCutWait(slaves: seq<Slave>, p: Stack, s: Stack, tx: seq<byte>, idx: nat, frame: seq<byte>, ticks: nat,
                       again: nat, answer: Medium)
    requires Sent(p, s, tx, idx, frame) && AllPass(slaves) && ValidMedium(answer) && ticks > |p.wire|
             && ticks > |s.wire|
    requires Delivers(slaves, PrimaryCable, frame, idx, p.wire, s.wire, answer, again)
    ensures Result(WaitRed(p, s, tx, true, idx, ticks, again, answer), idx, Through(slaves, frame))
  {
    PortSilent(p, idx, ticks);
    DummyIn(s, idx, ticks);
    var (p', wkc) := Waiting(p, idx, ticks);
    var (s', wkc2) := Waiting(s, idx, ticks);
    MoreTime(answer, idx, |frame|, slaves, again - |s.wire|, again - |s'.wire|);
    RetryYields(p', s', tx, idx, again, answer, wkc, slaves, frame);
  }

  /** The secondary port is cut off: the primary port has the result. */
  lemma SecondaryCutWait(slaves: seq<Slave>, p: Stack, s: Stack, tx: seq<byte>, idx: nat, frame: seq<byte>, ticks: nat,
                         again: nat, answer: Medium)
    requires Sent(p, s, tx, idx, frame) && AllPass(slaves) && ValidMedium(answer) && ticks > |p.wire|
             && ticks > |s.wire|
    requires Delivers(slaves, SecondaryCable, frame, idx, p.wire, s.wire, answer, again)
    ensures Result(WaitRed(p, s, tx, true, idx, ticks, again, answer), idx, Through(slaves, frame))
  {
    ThroughIsReply(slaves, frame);
    PortYields(p, idx, ticks, RX_PRIM);
    PortSilent(s, idx, ticks);
  }

  /** The ring is broken between slaves: what the primary port got back is sent on through the rest. */
  lemma BrokenWait(slaves: seq<Slave>, k: nat, m: nat, p: Stack, s: Stack, tx: seq<byte>, idx: nat, frame: seq<byte>,
                   ticks: nat, again: nat, answer: Medium)
    requires Sent(p, s, tx, idx, frame) && AllPass(slaves) && ValidMedium(answer) && ticks > |p.wire|
             && ticks > |s.wire|
    requires 0 < k <= m < |slaves| && Delivers(slaves, Broken(k, m), frame, idx, p.wire, s.wire, answer, again)
    ensures Result(WaitRed(p, s, tx, true, idx, ticks, again, answer), idx, Through(slaves[..k] + slaves[m..], frame))
  {
    ThroughAppend(slaves[..k], slaves[m..], frame);
    PartsWait(slaves[..k], slaves[m..], p, s, tx, idx, frame, ticks, again, answer);
  }

  lemma PartsWait(left: seq<Slave>, right: seq<Slave>, p: Stack, s: Stack, tx: seq<byte>, idx: nat, frame: seq<byte>,
                  ticks: nat, again: nat, answer: Medium)
    requires Sent(p, s, tx, idx, frame) && AllPass(left) && AllPass(right) && ValidMedium(answer) && ticks > |p.wire|
             && ticks > |s.wire|
    requires YieldsFrame(p.wire, idx, RX_PRIM, Through(left, frame)) && Yields(s.wire, idx, RX_SEC)
    requires ComesBack(answer, idx, |frame|, right, again - |s.wire|)
    ensures Result(WaitRed(p, s, tx, true, idx, ticks, again, answer), idx, Through(right, Through(left, frame)))
  {
    var half := Through(left, frame);
    assert FullReply(half, |frame|) && |half| == |frame| && half[3] == idx by { ThroughIsReply(left, frame); }
    PortYields(p, idx, ticks, RX_PRIM);
    DummyIn(s, idx, ticks);
    var (p', wkc) := Waiting(p, idx, ticks);
    var s' := Waiting(s, idx, ticks).0;
    var tx' := Overwrite(tx, 0, p'.rxbuf[idx][..p'.txlen[idx]]);
    assert WaitRed(p, s, tx, true, idx, ticks, again, answer) == Retry(p', s', tx', idx, again, answer, wkc);
    MoreTime(answer, idx, |frame|, right, again - |s.wire|, again - |s'.wire|);
    PassOn(p', s', tx, idx, again, answer, wkc, right, half);
  }

  /** What the primary port received goes out again on the secondary port. */
  lemma PassOn(p: Stack, s: Stack, tx: seq<byte>, idx: nat, ticks: nat, answer: Medium, wkc: int, slaves: seq<Slave>,
               half: seq<byte>)
    requires ValidPair(p, s, tx) && idx < EC_MAXBUF && ValidMedium(answer) && AllPass(slaves)
    requires Silent(s.wire, idx) && FullReply(half, |half|) && half[3] == idx
    requires p.txlen[idx] == |half| && Holds(p.rxbuf[idx], |half|, half)
    requires ComesBack(answer, idx, |half|, slaves, ticks - |s.wire|)
    ensures var tx' := Overwrite(tx, 0, p.rxbuf[idx][..p.txlen[idx]]);
      Result(Retry(p, s, tx', idx, ticks, answer, wkc), idx, Through(slaves, half))
  {
    var tx' := Overwrite(tx, 0, p.rxbuf[idx][..p.txlen[idx]]);
    assert tx'[..|half|] == half;
    RetryYields(p, s, tx', idx, ticks, answer, wkc, slaves, half);
  }

  /** Whoever waits gets the frame as it is after passing, in order and once each, all slaves that are
      still connected to a port: work counter and contents. */
  lemma WaitReachesAll(slaves: seq<Slave>, cut: Break, p: Stack, s: Stack, tx: seq<byte>, idx: nat, frame: seq<byte>,
                       ticks: nat, again: nat, answer: Medium)
    requires Sent(p, s, tx, idx, frame) && AllPass(slaves) && ValidMedium(answer) && ticks > |p.wire|
             && ticks > |s.wire|
    requires IsBreak(cut, |slaves|) && Delivers(slaves, cut, frame, idx, p.wire, s.wire, answer, again)
    ensures Result(WaitRed(p, s, tx, true, idx, ticks, again, answer), idx, Through(Reachable(slaves, cut), frame))
  {
    match cut
    case Intact => IntactWait(slaves, p, s, tx, idx, frame, ticks, again, answer);
    case PrimaryCable => PrimaryCutWait(slaves, p, s, tx, idx, frame, ticks, again, answer);
    case SecondaryCable => SecondaryCutWait(slaves, p, s, tx, idx, frame, ticks, again, answer);
    case Broken(k, m) => BrokenWait(slaves, k, m, p, s, tx, idx, frame, ticks, again, answer);
  }

  // ----- when a frame is lost

  /** Both ports expect the index. */
  ghost predicate Awaited(p: Stack, s: Stack, tx: seq<byte>, idx: nat) {
    ValidPair(p, s, tx) && idx < EC_MAXBUF && p.stat[idx] == s.stat[idx] == Tx
  }

  /** Nothing comes in on either port, or only the frame on the secondary one while the dummy is lost: there is no
      frame, although in the second case the secondary port holds it. */
  lemma FrameMissed(p: Stack, s: Stack, tx: seq<byte>, idx: nat, ticks: nat, again: nat, answer: Medium)
    requires Awaited(p, s, tx, idx) && ValidMedium(answer) && ticks > |p.wire| && ticks > |s.wire|
    requires Silent(p.wire, idx) && (Silent(s.wire, idx) || Yields(s.wire, idx, RX_PRIM))
    ensures var o := WaitRed(p, s, tx, true, idx, ticks, again, answer);
      o.wkc == EC_NOFRAME && o.tx == tx
  {
    PortSilent(p, idx, ticks);
    if Silent(s.wire, idx) {
      PortSilent(s, idx, ticks);
    } else {
      PortYields(s, idx, ticks, RX_PRIM);
    }
  }

  /** The frame is lost, but the dummy comes through to the primary port: the wait returns the work counter and the
      contents of the dummy. */
  lemma DummyTaken(p: Stack, s: Stack, tx: seq<byte>, idx: nat, dummy: seq<byte>, ticks: nat, again: nat,
                   answer: Medium)
    requires Awaited(p, s, tx, idx) && ValidMedium(answer) && ticks > |p.wire| && ticks > |s.wire|
    requires YieldsFrame(p.wire, idx, RX_SEC, dummy) && Silent(s.wire, idx) && FullReply(dummy, p.txlen[idx])
    ensures var o := WaitRed(p, s, tx, true, idx, ticks, again, answer);
      o.wkc == WkcOf(dummy) && Holds(o.prim.rxbuf[idx], p.txlen[idx], dummy)
  {
    PortYields(p, idx, ticks, RX_SEC);
    PortSilent(s, idx, ticks);
  }

  /** A break in one place cuts off no slave. */
  predicate SinglePlace(cut: Break) {
    cut.Broken? ==> cut.k == cut.m
  }

  lemma AllReachable(slaves: seq<Slave>, cut: Break)
    requires IsBreak(cut, |slaves|) && SinglePlace(cut)
    ensures Reachable(slaves, cut) == slaves
  {
    if cut.Broken? { assert slaves[..cut.k] + slaves[cut.k..] == slaves; }
  }

  /** Any single break of the ring is transparent: with it or without it, the result is the same. */
  lemma SingleBreakTransparent(slaves: seq<Slave>, cut: Break, p: Stack, s: Stack, tx: seq<byte>, idx: nat,
                               frame: seq<byte>, ticks: nat, again: nat, answer: Medium)
    requires Sent(p, s, tx, idx, frame) && AllPass(slaves) && ValidMedium(answer) && ticks > |p.wire|
             && ticks > |s.wire|
    requires IsBreak(cut, |slaves|) && SinglePlace(cut)
             && Delivers(slaves, cut, frame, idx, p.wire, s.wire, answer, again)
    ensures Result(WaitRed(p, s, tx, true, idx, ticks, again, answer), idx, Through(slaves, frame))
  {
    AllReachable(slaves, cut);
    WaitReachesAll(slaves, cut, p, s, tx, idx, frame, ticks, again, answer);
  }
}
