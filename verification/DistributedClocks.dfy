/** Topology discovery of ecx_config_init and the propagation delays of ecx_configdc, on the slave
    list they update in place, proved against the physical tree of module Topology. */
module DistributedClocks {
  import opened Topology

  /** One entry of the slave list: the fields these functions use. Port bitmaps are sets of ports. */
  datatype SlaveInfo = SlaveInfo(hasdc: bool, topology: nat, activeports: set<Port>, consumedports: set<Port>,
                                 parent: nat, parentport: Port, entryport: Port,
                                 rtA: int, rtB: int, rtC: int, rtD: int, pdelay: int,
                                 dcNext: nat, dcPrevious: nat)

  /** Receive times a slave latched at ports 0 to 3, in its own clock. */
  datatype Latched = Latched(a: int, b: int, c: int, d: int)

  function PortTime(s: SlaveInfo, p: Port): int {
    if p == 0 then s.rtA else if p == 1 then s.rtB else if p == 2 then s.rtC else s.rtD
  }

  function LatchedTime(t: Latched, p: Port): int {
    if p == 0 then t.a else if p == 1 then t.b else if p == 2 then t.c else t.d
  }

  /** Division of C: truncates toward zero. */
  function Half(x: int): int {
    if x >= 0 then x / 2 else -((-x) / 2)
  }

  /** Port p of a DL status word is open and has communication: bits 8+2p, 9+2p hold 10. */
  predicate PortLinked(status: nat, p: Port) {
    if p == 0 then status / 0x100 % 4 == 2
    else if p == 1 then status / 0x400 % 4 == 2
    else if p == 2 then status / 0x1000 % 4 == 2
    else status / 0x4000 % 4 == 2
  }

  function LinkedPorts(status: nat): set<Port> {
    (if PortLinked(status, 0) then {0} else {}) + (if PortLinked(status, 1) then {1} else {})
    + (if PortLinked(status, 2) then {2} else {}) + (if PortLinked(status, 3) then {3} else {})
  }

  /** As C divides: what is left over has the sign of x. */
  lemma HalfTruncates(x: int)
    ensures var rest := x - 2 * Half(x); if x >= 0 then 0 <= rest <= 1 else -1 <= rest <= 0
  {
  }

  /** What a DL status word says of one port in two bits: the loop is closed, a signal is detected. */
  datatype PortStatus = PortStatus(closed: bool, signal: bool)

  function PortBits(s: PortStatus): nat { (if s.closed then 1 else 0) + if s.signal then 2 else 0 }

  /** DL status of ports 0 to 3, from bit 8 on (register 0x0110, ETG.1000.4); `low` are the bits below. */
  function DlStatus(low: nat, s0: PortStatus, s1: PortStatus, s2: PortStatus, s3: PortStatus): nat {
    low + 0x100 * PortBits(s0) + 0x400 * PortBits(s1) + 0x1000 * PortBits(s2) + 0x4000 * PortBits(s3)
  }

  /** The port has a signal and passes frames on. */
  predicate InUse(s: PortStatus) { s.signal && !s.closed }

  /** The status word of a slave whose linked ports are `active`, whatever it says otherwise. */
  ghost predicate Shows(status: nat, active: set<Port>) {
    exists low: nat, s0, s1, s2, s3 ::
      && low < 0x100 && status == DlStatus(low, s0, s1, s2, s3)
      && (0 in active <==> InUse(s0)) && (1 in active <==> InUse(s1))
      && (2 in active <==> InUse(s2)) && (3 in active <==> InUse(s3))
  }

  lemma PortsOfStatus(low: nat, s0: PortStatus, s1: PortStatus, s2: PortStatus, s3: PortStatus)
    requires low < 0x100
    ensures var status := DlStatus(low, s0, s1, s2, s3);
      && PortLinked(status, 0) == InUse(s0) && PortLinked(status, 1) == InUse(s1)
      && PortLinked(status, 2) == InUse(s2) && PortLinked(status, 3) == InUse(s3)
  {
    var b0, b1, b2, b3 := PortBits(s0), PortBits(s1), PortBits(s2), PortBits(s3);
    var status := DlStatus(low, s0, s1, s2, s3);
    assert status / 0x100 == b0 + 4 * b1 + 16 * b2 + 64 * b3;
    assert status / 0x400 == b1 + 4 * b2 + 16 * b3;
    assert status / 0x1000 == b2 + 4 * b3;
    assert status / 0x4000 == b3;
  }

  /** From the word the ports are read that it shows. */
  lemma ShownPorts(status: nat, active: set<Port>)
    requires Shows(status, active)
    ensures LinkedPorts(status) == active
  {
    var low: nat, s0, s1, s2, s3 :|
      && low < 0x100 && status == DlStatus(low, s0, s1, s2, s3)
      && (0 in active <==> InUse(s0)) && (1 in active <==> InUse(s1))
      && (2 in active <==> InUse(s2)) && (3 in active <==> InUse(s3));
    PortsOfStatus(low, s0, s1, s2, s3);
    forall p: Port
      ensures p in LinkedPorts(status) <==> p in active
    {
      assert p == 0 || p == 1 || p == 2 || p == 3;
    }
  }

  /** The number of ports is counted right. */
  lemma DegreeIsSize(b: set<Port>)
    ensures Degree(b) == |b|
  {
    var b1 := b - {0};
    var b2 := b1 - {1};
    var b3 := b2 - {2};
    var b4 := b3 - {3};
    assert b4 == {} by {
      forall p: Port
        ensures p !in b4
      {
        assert p == 0 || p == 1 || p == 2 || p == 3;
      }
    }
    assert |b| == |b1| + (if 0 in b then 1 else 0) && |b1| == |b2| + (if 1 in b then 1 else 0);
    assert |b2| == |b3| + (if 2 in b then 1 else 0) && |b3| == |b4| + (if 3 in b then 1 else 0);
  }

  lemma ShownAlways(status: nat, b: set<Port>, h: nat)
    requires b == LinkedPorts(status) && h == Degree(b)
    ensures forall active {:trigger Shows(status, active)} :: Shows(status, active) ==> b == active && h == |active|
  {
    DegreeIsSize(b);
    forall active {:trigger Shows(status, active)} | Shows(status, active)
      ensures b == active
    {
      ShownPorts(status, active);
    }
  }

  lemma ShownForAll(status: seq<nat>, f: seq<Node>)
    requires |f| == |status| && forall k :: 1 <= k < |f| ==> Shows(status[k], f[k].active)
    ensures forall k :: 1 <= k < |f| ==> LinkedPorts(status[k]) == f[k].active
  {
    forall k | 1 <= k < |f|
      ensures LinkedPorts(status[k]) == f[k].active
    {
      ShownPorts(status[k], f[k].active);
    }
  }

  /** When a port has its turn in the search order 0 - 3 - 1 - 2. */
  function Turn(p: Port): nat {
    if p == 0 then 0 else if p == 3 then 1 else if p == 1 then 2 else 3
  }

  /** First port of a bitmap in the search order 3 - 1 - 2 - 0. */
  function FirstPort(b: set<Port>): Port {
    if 3 in b then 3 else if 1 in b then 1 else if 2 in b then 2 else 0
  }

  /** Slave a is an ancestor of slave i; the master, 0, is one of all. */
  predicate Above(list: seq<SlaveInfo>, a: nat, i: nat)
    decreases i
  {
    0 < i < |list| && list[i].parent < i && (list[i].parent == a || Above(list, a, list[i].parent))
  }

  /** The ancestors of i up to a are those of i above the parent of a. */
  lemma {:induction false} AboveNext(list: seq<SlaveInfo>, a: nat, i: nat)
    requires Above(list, a, i) && 0 < a < |list| && list[a].parent < a
    ensures a < i && Above(list, list[a].parent, i)
    ensures forall x :: list[a].parent < x && Above(list, x, i) ==> x >= a
    decreases i
  {
    var p := list[i].parent;
    if p == a {
      forall x | list[a].parent < x && Above(list, x, i)
        ensures x >= a
      {
        if x != a { AboveBelow(list, x, a); }
      }
    } else {
      AboveNext(list, a, p);
    }
  }

  /** All ancestors of a slave are its parent or come before its parent. */
  lemma {:induction false} AboveBelow(list: seq<SlaveInfo>, x: nat, i: nat)
    requires Above(list, x, i)
    ensures x <= list[i].parent
    decreases i
  {
    if list[i].parent != x { AboveBelow(list, x, list[i].parent); }
  }

  /** Last slave below `i` that has a distributed clock, 0 if none. */
  function PrevDc(list: seq<SlaveInfo>, i: nat): (p: nat)
    requires i <= |list|
    ensures p == 0 || p < i
  {
    if i <= 1 then 0 else if list[i - 1].hasdc then i - 1 else PrevDc(list, i - 1)
  }

  lemma {:induction false} PrevDcIsLast(list: seq<SlaveInfo>, i: nat)
    requires i <= |list|
    ensures var p := PrevDc(list, i);
      && (p == 0 || (p < i && list[p].hasdc))
      && forall k :: p < k < i ==> !list[k].hasdc
  {
    if i > 1 && !list[i - 1].hasdc { PrevDcIsLast(list, i - 1); }
  }

  // ----- what the readings say about the tree

  /** Every active port of slave k latched the true time of the frame, seen from the slave's clock. */
  ghost predicate LatchedTrue(n: Node, t: Latched) {
    forall p: Port :: p in n.active ==> LatchedTime(t, p) == Time(n, p) + n.clock
  }

  /** Branches of slave j whose slave number is at least i. */
  ghost function Remaining(n: Node, i: nat): set<Port> {
    (if 3 in n.active && n.child3 >= i then {3} else {}) + (if 1 in n.active && n.child1 >= i then {1} else {})
    + (if 2 in n.active && n.child2 >= i then {2} else {})
  }

  lemma ConsumesOwnPort(f: seq<Node>, i: nat)
    requires i < |f| && UpOk(f, i) && DownOk(f, f[i].parent)
    ensures FirstPort(Remaining(f[f[i].parent], i)) == f[i].port
    ensures Remaining(f[f[i].parent], i) - {f[i].port} == Remaining(f[f[i].parent], i + 1)
  {
  }

  lemma OthersKeepPorts(f: seq<Node>, j: nat, i: nat)
    requires j < |f| && i < |f| && DownOk(f, j) && f[i].parent != j
    ensures Remaining(f[j], i) == Remaining(f[j], i + 1)
  {
  }

  lemma StartsWithAllBranches(f: seq<Node>, i: nat)
    requires i < |f| && DownOk(f, i) && f[i].active <= {0, 1, 2, 3}
    ensures f[i].active - {0} == Remaining(f[i], i + 1)
  {
  }

  /** The delay the code computes for slave i from its own readings and those of its parent. */
  function Delay(s: SlaveInfo, p: SlaveInfo, child: nat, parent: nat): int {
    var prev := PrevPort(p.activeports, s.parentport);
    var dt3 := PortTime(p, s.parentport) - PortTime(p, prev);
    var dt1 := if s.topology > 1
               then PortTime(s, PrevPort(s.activeports, s.entryport)) - PortTime(s, s.entryport) else 0;
    var dt1' := if dt1 > dt3 then -dt1 else dt1;
    var dt2 := if child - parent > 1 then PortTime(p, prev) - PortTime(p, p.entryport) else 0;
    var dt2' := if dt2 < 0 then -dt2 else dt2;
    Half(dt3 - dt1') + dt2' + p.pdelay
  }

  lemma DelayIgnoresOwn(s: SlaveInfo, s': SlaveInfo, p: SlaveInfo, child: nat, parent: nat)
    requires s == s'.(pdelay := s.pdelay)
    ensures Delay(s, p, child, parent) == Delay(s', p, child, parent)
  {
    assert forall q: Port :: PortTime(s, q) == PortTime(s', q);
  }

  /** Whatever the readings are, a slave is never put before its parent, as long as the parent saw the frame come back
      on the port of the slave after it came to the port before. */
  lemma NeverBeforeParent(s: SlaveInfo, p: SlaveInfo, child: nat, parent: nat)
    requires PortTime(p, s.parentport) >= PortTime(p, PrevPort(p.activeports, s.parentport))
    ensures Delay(s, p, child, parent) >= p.pdelay
  {
  }

  ghost predicate Reads(s: SlaveInfo, n: Node) {
    && s.activeports == n.active && s.topology == Degree(n.active) && s.parent == n.parent && s.entryport == 0
    && forall p: Port :: p in n.active ==> PortTime(s, p) == Time(n, p) + n.clock
  }

  /** From readings in unrelated clocks, the delay of a slave minus that of its parent is the true
      travel time between them, the side branches visited before included. */
  lemma DelayIsTravelTime(f: seq<Node>, i: nat, s: SlaveInfo, p: SlaveInfo)
    requires i < |f| && UpOk(f, i) && DownOk(f, i) && DownOk(f, f[i].parent)
    requires Reads(s, f[i]) && Reads(p, f[f[i].parent]) && s.parentport == f[i].port
    ensures Delay(s, p, i, f[i].parent) == p.pdelay + f[i].arrival - f[f[i].parent].arrival
  {
    var n, up := f[i], f[f[i].parent];
    var prev := PrevPort(up.active, n.port);
    assert prev in up.active;
    var last := PrevPort(n.active, 0);
    assert last in n.active;
    assert PortTime(s, last) - PortTime(s, 0) == n.back2 - n.arrival;
    assert PortTime(p, n.port) - PortTime(p, prev) == n.back2 - n.arrival + 2 * (n.arrival - Time(up, prev));
    assert s.topology <= 1 ==> n.back2 == n.arrival;
  }

  /** All slaves have clocks, and the slave list has the shape of the numbered tree `f`. */
  ghost predicate Matched(list: seq<SlaveInfo>, f: seq<Node>) {
    && |f| == |list|
    && (forall k :: 1 <= k < |f| ==> list[k].hasdc && list[k].activeports == f[k].active
                                     && list[k].topology == Degree(f[k].active) && list[k].parent == f[k].parent)
    && (forall k :: 1 <= k < |f| ==> DownOk(f, k) && f[k].active <= {0, 1, 2, 3})
    && (forall k :: 2 <= k < |f| ==> UpOk(f, k))
    && (|f| > 1 ==> f[1].parent == 0 && f[1].arrival == 0)
  }

  /** What is finished of slave j when slaves 1 to i-1 have been visited: its delay is the true
      arrival time (`base` is what the list held for slave 1), and of its ports only those of
      branches not visited yet are unconsumed. */
  ghost predicate DelayDone(list: seq<SlaveInfo>, f: seq<Node>, j: nat, i: nat, base: int)
    requires j < |list| == |f|
  {
    && Reads(list[j], f[j])
    && list[j].consumedports == Remaining(f[j], i)
    && list[j].pdelay == base + f[j].arrival
    && (2 <= j ==> list[j].parentport == f[j].port)
  }

  ghost predicate DelaysDone(list: seq<SlaveInfo>, f: seq<Node>, i: nat, base: int)
    requires |list| == |f|
  {
    forall j :: 1 <= j < i && j < |f| ==> DelayDone(list, f, j, i, base)
  }

  /** The list and the readings of a real bus of clocks: its shape is that of the tree `root`,
      numbered as `f`, and the readings are true up to the offset of each slave's clock. */
  ghost predicate Measured(list: seq<SlaveInfo>, latched: seq<Latched>, f: seq<Node>, root: Slave) {
    && IsBus(f, root) && |f| == |list| == |latched|
    && forall k :: 1 <= k < |f| ==>
         && list[k].hasdc && list[k].activeports == f[k].active && list[k].topology == Degree(f[k].active)
         && list[k].parent == f[k].parent && LatchedTrue(f[k], latched[k])
  }

  predicate SameBus(a: SlaveInfo, b: SlaveInfo) {
    a.hasdc == b.hasdc && a.topology == b.topology && a.activeports == b.activeports && a.parent == b.parent
  }

  /** Equal but for the links of the clock chain. */
  predicate SameButChain(a: SlaveInfo, b: SlaveInfo) {
    a == b.(dcNext := a.dcNext, dcPrevious := a.dcPrevious)
  }

  /** `s` has the readings `t`, and its entry port is consumed. */
  ghost predicate LatchedInto(s: SlaveInfo, t: Latched) {
    && s.rtA == t.a && s.rtB == t.b && s.rtC == t.c && s.rtD == t.d
    && s.consumedports == s.activeports - {s.entryport}
    && (0 in s.activeports && (forall p: Port :: p in s.activeports ==> PortTime(s, 0) <= PortTime(s, p)) ==>
          s.entryport == 0)
  }

  /** The parent part of a visit: slave i took the first unconsumed port p of its parent. */
  ghost predicate VisitedBelow(a: seq<SlaveInfo>, b: seq<SlaveInfo>, i: nat)
    requires i < |a| == |b|
  {
    var p := a[i].parent;
    p < i
    && (var first := FirstPort(a[p].consumedports);
        && SameButChain(b[p], a[p].(consumedports := a[p].consumedports - {first}))
        && b[i].parentport == (if a[p].topology == 1 then a[p].entryport else first)
        && b[i].pdelay == Delay(b[i], b[p], i, p))
  }

  /** What a visit leaves when the parent of slave i has a clock, or is the master. */
  ghost predicate Visited(a: seq<SlaveInfo>, b: seq<SlaveInfo>, i: nat, t: Latched)
    requires 1 <= i < |a| == |b|
  {
    && SameBus(b[i], a[i]) && LatchedInto(b[i], t)
    && (a[i].parent < i && (a[i].parent == 0 || a[a[i].parent].hasdc) ==>
          && (forall j :: 1 <= j < i && j != a[i].parent ==> SameButChain(b[j], a[j]))
          && (if a[i].parent == 0 then b[i].pdelay == a[i].pdelay else VisitedBelow(a, b, i)))
  }

  /** A parent with a clock is the nearest ancestor with a clock. */
  lemma NearestClock(list: seq<SlaveInfo>, parent: nat, child: nat, i: nat)
    requires parent < child && (child == i || Above(list, child, i))
    requires Above(list, parent, i) && parent < |list| && (parent == 0 || list[parent].hasdc)
    requires forall x :: parent < x < |list| && Above(list, x, i) ==> !list[x].hasdc
    ensures list[i].parent == 0 || list[list[i].parent].hasdc ==> parent == list[i].parent && child == i
  {
    AboveBelow(list, parent, i);
    if child != i { AboveBelow(list, child, i); }
    assert Above(list, list[i].parent, i);
  }

  lemma VisitedKeeps(a: seq<SlaveInfo>, b: seq<SlaveInfo>, f: seq<Node>, i: nat, t: Latched, base: int)
    requires 1 <= i < |a| == |b| && Matched(a, f) && DelaysDone(a, f, i, base) && LatchedTrue(f[i], t)
    requires Visited(a, b, i, t) && (i == 1 ==> a[1].pdelay == base)
    ensures DelaysDone(b, f, i + 1, base)
  {
    if i > 1 { assert UpOk(f, i); }
    VisitKeepsDelays(a, b, f, i, t, base);
  }

  lemma ParentAfterVisit(a: seq<SlaveInfo>, b: seq<SlaveInfo>, f: seq<Node>, i: nat, base: int)
    requires 2 <= i < |a| == |b| && Matched(a, f) && DelaysDone(a, f, i, base) && VisitedBelow(a, b, i)
    ensures DelayDone(b, f, f[i].parent, i + 1, base) && b[i].parentport == f[i].port
  {
    var p := f[i].parent;
    assert UpOk(f, i) && DelayDone(a, f, p, i, base) && DownOk(f, p);
    ConsumesOwnPort(f, i);
    assert a[p].topology > 1;
    assert forall q: Port :: PortTime(b[p], q) == PortTime(a[p], q);
  }

  lemma SelfAfterVisit(a: seq<SlaveInfo>, b: seq<SlaveInfo>, f: seq<Node>, i: nat, t: Latched, base: int)
    requires 1 <= i < |a| == |b| && Matched(a, f) && LatchedTrue(f[i], t)
    requires SameBus(b[i], a[i]) && LatchedInto(b[i], t)
    requires if i == 1 then b[i].pdelay == base
             else VisitedBelow(a, b, i) && DelayDone(b, f, f[i].parent, i + 1, base) && b[i].parentport == f[i].port
    ensures DelayDone(b, f, i, i + 1, base)
  {
    StartsWithAllBranches(f, i);
    if i > 1 {
      assert UpOk(f, i);
      DelayIsTravelTime(f, i, b[i], b[f[i].parent]);
    }
  }

  /** Visiting slave i of a bus of clocks extends the finished part by slave i. */
  lemma VisitKeepsDelays(a: seq<SlaveInfo>, b: seq<SlaveInfo>, f: seq<Node>, i: nat, t: Latched, base: int)
    requires 1 <= i < |a| == |b| && Matched(a, f) && DelaysDone(a, f, i, base) && LatchedTrue(f[i], t)
    requires forall j :: 1 <= j < i && j != a[i].parent ==> SameButChain(b[j], a[j])
    requires SameBus(b[i], a[i]) && LatchedInto(b[i], t)
    requires if i == 1 then b[i].pdelay == base else VisitedBelow(a, b, i)
    ensures DelaysDone(b, f, i + 1, base)
  {
    if i > 1 {
      ParentAfterVisit(a, b, f, i, base);
    }
    SelfAfterVisit(a, b, f, i, t, base);
    OthersAfterVisit(a, b, f, i, base);
  }

  lemma OthersAfterVisit(a: seq<SlaveInfo>, b: seq<SlaveInfo>, f: seq<Node>, i: nat, base: int)
    requires 1 <= i < |a| == |b| && Matched(a, f) && DelaysDone(a, f, i, base)
    requires forall j :: 1 <= j < i && j != f[i].parent ==> SameButChain(b[j], a[j])
    ensures forall j {:trigger DelayDone(b, f, j, i + 1, base)} :: 1 <= j < i && j != f[i].parent ==>
            DelayDone(b, f, j, i + 1, base)
  {
    forall j {:trigger DelayDone(b, f, j, i + 1, base)} | 1 <= j < i && j != f[i].parent
      ensures DelayDone(b, f, j, i + 1, base)
    {
      OthersKeepPorts(f, j, i);
      OtherAfterVisit(a[j], b[j], a, b, f, j, i, base);
    }
  }

  lemma OtherAfterVisit(x: SlaveInfo, y: SlaveInfo, a: seq<SlaveInfo>, b: seq<SlaveInfo>, f: seq<Node>, j: nat, i: nat,
                        base: int)
    requires j < i < |a| == |b| == |f| && x == a[j] && y == b[j] && SameButChain(y, x)
    requires DelayDone(a, f, j, i, base) && Remaining(f[j], i) == Remaining(f[j], i + 1)
    ensures DelayDone(b, f, j, i + 1, base)
  {
    assert forall q: Port :: PortTime(y, q) == PortTime(x, q);
  }

  /** The clock chain over slaves 1 to i-1 of list `now`, headed by entry 0: the slaves that have a
      clock (in `was`) point at their neighbours. */
  ghost predicate Chained(was: seq<SlaveInfo>, now: seq<SlaveInfo>, i: nat)
    requires 0 < |now| == |was| && i <= |was|
  {
    && (now[0].hasdc <==> PrevDc(was, i) != 0)
    && forall k {:trigger Linked(was, now, k)} :: 1 <= k < i && was[k].hasdc ==> Linked(was, now, k)
  }

  ghost predicate Linked(was: seq<SlaveInfo>, now: seq<SlaveInfo>, k: nat)
    requires k < |now| == |was|
  {
    now[k].dcPrevious == PrevDc(was, k) && now[PrevDc(was, k)].dcNext == k
  }

  ghost predicate AllLatched(f: seq<Node>, latched: seq<Latched>) {
    |f| <= |latched| && forall k :: 1 <= k < |f| ==> LatchedTrue(f[k], latched[k])
  }

  ghost predicate ParentsFirst(list: seq<SlaveInfo>) {
    forall k :: 1 <= k < |list| ==> list[k].parent < k
  }

  /** The loop of ecx_configdc before slave i: `was` is the list at the start, `now` the list now. */
  ghost predicate Progress(was: seq<SlaveInfo>, now: seq<SlaveInfo>, i: nat, prevDc: nat, f: seq<Node>,
                           measured: bool) {
    && 1 <= i <= |was| == |now|
    && (forall k :: 1 <= k < |was| ==> SameBus(now[k], was[k]))
    && (forall k :: i <= k < |was| ==> now[k].pdelay == was[k].pdelay)
    && prevDc == PrevDc(was, i) && Chained(was, now, i)
    && (measured ==> |was| > 1 && |f| == |was| && DelaysDone(now, f, i, was[1].pdelay))
  }

  class Master {
    const slavecount: nat
    const slavelist: array<SlaveInfo>

    ghost predicate Valid()
      reads this
    {
      slavelist.Length == slavecount + 1
    }

    /** Parents come before their children; this is what ends the search for a parent with a clock. */
    ghost predicate Rooted()
      requires Valid()
      reads this, slavelist
    {
      forall k :: 1 <= k <= slavecount ==> slavelist[k].parent < k
    }

    constructor (slaves: seq<SlaveInfo>)
      requires |slaves| > 0
      ensures Valid() && fresh(slavelist) && slavelist[..] == slaves
    {
      slavecount := |slaves| - 1;
      slavelist := new SlaveInfo[|slaves|](i requires 0 <= i < |slaves| => slaves[i]);
    }

    ghost function Topologies(): seq<nat>
      requires Valid()
      reads this, slavelist
    {
      Counts(slavelist[..])
    }

    /** The backward scan for the parent of one slave. */
    method FindParent(slave: nat)
      requires Valid() && 1 <= slave <= slavecount
      modifies slavelist
      ensures forall k :: 0 <= k <= slavecount && k != slave ==> slavelist[k] == old(slavelist[k])
      ensures slavelist[slave] == old(slavelist[slave]).(parent := slavelist[slave].parent)
      ensures slave == 1 ==> slavelist[slave].parent == 0
      ensures slave > 1 ==> IsScanResult(old(Topologies()), slave, slavelist[slave].parent)
    {
      ghost var t := Topologies();
      slavelist[slave] := slavelist[slave].(parent := 0);
      if slave > 1 {
        var topoc := 0;
        var slavec: int := slave - 1;
        var searching := true;
        while searching
          invariant searching ==> 1 <= slavec < slave && topoc == Balance(t, slavec + 1, slave)
          invariant forall k :: 0 <= k <= slavecount && k != slave ==> slavelist[k] == old(slavelist[k])
          invariant slavelist[slave] == old(slavelist[slave]).(parent := slavelist[slave].parent)
          invariant searching ==> forall c :: slavec < c < slave ==> !Stops(t, c, slave)
          invariant !searching ==> slavec <= 0 && IsScanResult(t, slave, slavelist[slave].parent)
          decreases slavec, searching
        {
          var topology := slavelist[slavec].topology;
          assert topology == t[slavec];
          if topology == 1 {
            topoc := topoc - 1;
          }
          if topology == 3 {
            topoc := topoc + 1;
          }
          if topology == 4 {
            topoc := topoc + 2;
          }
          assert topoc == Balance(t, slavec, slave);
          if (topoc >= 0 && topology > 1) || slavec == 1 {
            slavelist[slave] := slavelist[slave].(parent := slavec);
            slavec := 1;
          }
          slavec := slavec - 1;
          searching := slavec > 0;
        }
      }
    }

    /** Number and bitmap of the open ports in a DL status word. */
    static method ReadPorts(status: nat) returns (h: nat, b: set<Port>)
      ensures b == LinkedPorts(status) && h == Degree(b)
      ensures forall active {:trigger Shows(status, active)} :: Shows(status, active) ==> b == active && h == |active|
    {
      h, b := 0, {};
      if PortLinked(status, 0) {
        h, b := h + 1, b + {0};
      }
      if PortLinked(status, 1) {
        h, b := h + 1, b + {1};
      }
      if PortLinked(status, 2) {
        h, b := h + 1, b + {2};
      }
      if PortLinked(status, 3) {
        h, b := h + 1, b + {3};
      }
      ShownAlways(status, b, h);
    }

    /** The parents of slaves 2 to n-1 are what the scan computes. */
    ghost predicate ScannedUpTo(n: nat)
      requires Valid() && n <= slavecount + 1
      reads this, slavelist
    {
      forall k :: 2 <= k < n ==> IsScanResult(Topologies(), k, slavelist[k].parent)
    }

    ghost predicate PortsSet(k: nat, status: nat)
      requires Valid() && k <= slavecount
      reads this, slavelist
    {
      slavelist[k].activeports == LinkedPorts(status) && slavelist[k].topology == Degree(LinkedPorts(status))
    }

    /** Whatever ports the status word shows, slave k has these, and their number. */
    ghost predicate PortsShown(k: nat, status: nat)
      requires Valid() && k <= slavecount
      reads this, slavelist
    {
      forall active {:trigger Shows(status, active)} ::
        Shows(status, active) ==> slavelist[k].activeports == active && slavelist[k].topology == |active|
    }

    /** One slave of the topology loop: decode its open ports, then find its parent. */
    method ConfigPorts(slave: nat, status: nat)
      requires Valid() && 1 <= slave <= slavecount && ScannedUpTo(slave)
      modifies slavelist
      ensures forall k :: 0 <= k <= slavecount && k != slave ==> slavelist[k] == old(slavelist[k])
      ensures PortsSet(slave, status) && PortsShown(slave, status)
      ensures slavelist[slave] == old(slavelist[slave]).(topology := slavelist[slave].topology,
                                                         activeports := slavelist[slave].activeports,
                                                         parent := slavelist[slave].parent)
      ensures slave == 1 ==> slavelist[slave].parent == 0
      ensures ScannedUpTo(slave + 1)
    {
      ghost var before := Topologies();
      var h, b := ReadPorts(status);
      slavelist[slave] := slavelist[slave].(topology := h, activeports := b);
      ghost var mid := Topologies();
      FindParent(slave);
      ghost var after := Topologies();
      forall k | 2 <= k <= slave
        ensures IsScanResult(after, k, slavelist[k].parent)
      {
        if k < slave {
          ScanReads(before, after, k, slavelist[k].parent);
        } else {
          ScanReads(mid, after, k, slavelist[k].parent);
        }
      }
    }

    /** The topology part of the slave loop of ecx_config_init. */
    method ConfigTopology(status: seq<nat>)
      requires Valid() && |status| == slavecount + 1
      modifies slavelist
      ensures forall k :: 1 <= k <= slavecount ==> PortsSet(k, status[k]) && PortsShown(k, status[k])
      ensures forall k :: 1 <= k <= slavecount ==>
                slavelist[k].hasdc == old(slavelist[k].hasdc) && slavelist[k].pdelay == old(slavelist[k].pdelay)
      ensures slavecount >= 1 ==> slavelist[1].parent == 0
      ensures ScannedUpTo(slavecount + 1) && Rooted()
    {
      var slave := 1;
      while slave <= slavecount
        invariant 1 <= slave <= slavecount + 1
        invariant forall k :: 1 <= k < slave ==> PortsSet(k, status[k]) && PortsShown(k, status[k])
        invariant forall k :: 1 <= k <= slavecount ==>
                    slavelist[k].hasdc == old(slavelist[k].hasdc) && slavelist[k].pdelay == old(slavelist[k].pdelay)
        invariant slave > 1 ==> slavelist[1].parent == 0
        invariant ScannedUpTo(slave)
      {
        ConfigPorts(slave, status[slave]);
        slave := slave + 1;
      }
    }

    /** Port with the lowest time stamp, the first one in the order 0 - 3 - 1 - 2 on a tie. */
    method EntryPort(i: nat) returns (entryport: Port)
      requires Valid() && i <= slavecount
      ensures var s := slavelist[i];
        s.activeports != {} && s.activeports <= {0, 1, 2, 3} ==>
          && entryport in s.activeports
          && forall p: Port :: p in s.activeports ==>
               PortTime(s, entryport) < PortTime(s, p)
                 || (PortTime(s, entryport) == PortTime(s, p) && Turn(entryport) <= Turn(p))
    {
      var s := slavelist[i];
      var plist, tlist, nlist := new Port[4], new int[4], 0;
      if 0 in s.activeports {
        plist[nlist], tlist[nlist] := 0, s.rtA;
        nlist := nlist + 1;
      }
      if 3 in s.activeports {
        plist[nlist], tlist[nlist] := 3, s.rtD;
        nlist := nlist + 1;
      }
      if 1 in s.activeports {
        plist[nlist], tlist[nlist] := 1, s.rtB;
        nlist := nlist + 1;
      }
      if 2 in s.activeports {
        plist[nlist], tlist[nlist] := 2, s.rtC;
        nlist := nlist + 1;
      }
      assert forall k :: 0 <= k < nlist ==> plist[k] in s.activeports && tlist[k] == PortTime(s, plist[k]);
      var e := 0;
      if nlist > 1 && tlist[1] < tlist[e] {
        e := 1;
      }
      if nlist > 2 && tlist[2] < tlist[e] {
        e := 2;
      }
      if nlist > 3 && tlist[3] < tlist[e] {
        e := 3;
      }
      entryport := plist[e];
    }

    /** Consume and return the first unconsumed port of a slave. */
    method ParentPort(parent: nat) returns (p: Port)
      requires Valid() && parent <= slavecount
      modifies slavelist
      ensures p == FirstPort(old(slavelist[parent]).consumedports)
      ensures slavelist[..]
              == var ports := old(slavelist[parent]).consumedports;
                 old(slavelist[..])[parent := old(slavelist[parent]).(consumedports := ports - {p})]
    {
      p := 0;
      var b := slavelist[parent].consumedports;
      if 3 in b {
        p, b := 3, b - {3};
      } else if 1 in b {
        p, b := 1, b - {1};
      } else if 2 in b {
        p, b := 2, b - {2};
      } else if 0 in b {
        p, b := 0, b - {0};
      }
      assert b == slavelist[parent].consumedports - {p};
      slavelist[parent] := slavelist[parent].(consumedports := b);
    }

    /** Nearest ancestor with a distributed clock (0 for the master) and the slave below it on the way. */
    method DcParent(i: nat) returns (parent: nat, child: nat)
      requires Valid() && Rooted() && 1 <= i <= slavecount
      ensures parent < child <= i && slavelist[child].parent == parent
      ensures parent == 0 || slavelist[parent].hasdc
      ensures Above(slavelist[..], parent, i) && (child == i || Above(slavelist[..], child, i))
      ensures forall x :: parent < x <= slavecount && Above(slavelist[..], x, i) ==> !slavelist[x].hasdc
    {
      child := i;
      parent := slavelist[i].parent;
      forall x: nat | Above(slavelist[..], x, i)
        ensures x <= parent
      {
        AboveBelow(slavelist[..], x, i);
      }
      while !(parent == 0 || slavelist[parent].hasdc)
        invariant parent < child <= i && slavelist[child].parent == parent
        invariant Above(slavelist[..], parent, i) && (child == i || Above(slavelist[..], child, i))
        invariant forall x :: parent < x <= slavecount && Above(slavelist[..], x, i) ==> !slavelist[x].hasdc
        decreases parent
      {
        AboveNext(slavelist[..], parent, i);
        child := parent;
        parent := slavelist[parent].parent;
      }
    }

    /** Consume the port of `parent` that slave i hangs on and note it. */
    method TakeParentPort(i: nat, parent: nat)
      requires Valid() && parent < i <= slavecount
      modifies slavelist
      ensures var p := old(slavelist[parent]);
        var first := FirstPort(p.consumedports);
        slavelist[..] == old(slavelist[..])[parent := p.(consumedports := p.consumedports - {first})]
                                          [i := old(slavelist[i]).(parentport :=
                                                                   if p.topology == 1 then p.entryport else first)]
    {
      var port := ParentPort(parent);
      slavelist[i] := slavelist[i].(parentport := port);
      if slavelist[parent].topology == 1 {
        slavelist[i] := slavelist[i].(parentport := slavelist[parent].entryport);
      }
    }

    /** Parent port and propagation delay of slave i below the slave `parent`. */
    method PropagationDelay(i: nat, parent: nat, child: nat)
      requires Valid() && parent < child <= i <= slavecount
      modifies slavelist
      ensures var p := old(slavelist[parent]);
        var first := FirstPort(p.consumedports);
        var p' := p.(consumedports := p.consumedports - {first});
        var s := old(slavelist[i]).(parentport := if p.topology == 1 then p.entryport else first);
        slavelist[..] == old(slavelist[..])[parent := p'][i := s.(pdelay := Delay(s, p', child, parent))]
    {
      TakeParentPort(i, parent);
      var s, p := slavelist[i], slavelist[parent];
      var dt1, dt2 := 0, 0;
      var dt3 := PortTime(p, s.parentport) - PortTime(p, PrevPort(p.activeports, s.parentport));
      if s.topology > 1 {
        dt1 := PortTime(s, PrevPort(s.activeports, s.entryport)) - PortTime(s, s.entryport);
      }
      if dt1 > dt3 {
        dt1 := -dt1;
      }
      if child - parent > 1 {
        dt2 := PortTime(p, PrevPort(p.activeports, s.parentport)) - PortTime(p, p.entryport);
      }
      if dt2 < 0 {
        dt2 := -dt2;
      }
      slavelist[i] := s.(pdelay := Half(dt3 - dt1) + dt2 + p.pdelay);
    }

    /** Append slave i to the chain of slaves with clocks; entry 0 heads the chain. */
    method LinkDc(i: nat, prevDc: nat)
      requires Valid() && prevDc < i <= slavecount
      requires slavelist[0].hasdc <==> prevDc != 0
      modifies slavelist
      ensures slavelist[0].hasdc && slavelist[prevDc].dcNext == i && slavelist[i].dcPrevious == prevDc
      ensures forall k :: 1 <= k <= slavecount ==> SameButChain(slavelist[k], old(slavelist[k]))
      ensures forall k :: 0 <= k <= slavecount && k != prevDc ==> slavelist[k].dcNext == old(slavelist[k].dcNext)
      ensures forall k :: 1 <= k <= slavecount && k != i ==> slavelist[k].dcPrevious == old(slavelist[k].dcPrevious)
    {
      if !slavelist[0].hasdc {
        slavelist[0] := slavelist[0].(hasdc := true, dcNext := i);
        slavelist[i] := slavelist[i].(dcPrevious := 0);
      } else {
        slavelist[prevDc] := slavelist[prevDc].(dcNext := i);
        slavelist[i] := slavelist[i].(dcPrevious := prevDc);
      }
    }

    /** Store the receive times of slave i, find its entry port and consume it. */
    method Latch(i: nat, t: Latched)
      requires Valid() && 1 <= i <= slavecount && slavelist[i].consumedports == slavelist[i].activeports
      modifies slavelist
      ensures forall k :: 0 <= k <= slavecount && k != i ==> slavelist[k] == old(slavelist[k])
      ensures LatchedInto(slavelist[i], t)
      ensures slavelist[i] == old(slavelist[i]).(rtA := t.a, rtB := t.b, rtC := t.c, rtD := t.d,
                entryport := slavelist[i].entryport, consumedports := slavelist[i].consumedports)
    {
      slavelist[i] := slavelist[i].(rtA := t.a, rtB := t.b, rtC := t.c, rtD := t.d);
      ghost var s := slavelist[i];
      var entryport := EntryPort(i);
      slavelist[i] := slavelist[i].(entryport := entryport);
      slavelist[i] := slavelist[i].(consumedports := slavelist[i].consumedports - {entryport});
      assert forall p: Port :: PortTime(slavelist[i], p) == PortTime(s, p);
    }

    /** Everything about slave i that has a clock: readings, entry port, parent port, delay. */
    method VisitDcSlave(i: nat, t: Latched, ghost f: seq<Node>, ghost base: int)
      requires Valid() && Rooted() && 1 <= i <= slavecount && slavelist[i].hasdc
      requires slavelist[i].consumedports == slavelist[i].activeports
      modifies slavelist
      ensures forall k :: 0 <= k <= slavecount ==>
                SameBus(slavelist[k], old(slavelist[k]))
                && slavelist[k].dcNext == old(slavelist[k]).dcNext
                   && slavelist[k].dcPrevious == old(slavelist[k]).dcPrevious
      ensures forall k :: i < k <= slavecount ==> slavelist[k] == old(slavelist[k])
      ensures slavelist[i].parent == 0 ==> slavelist[i].pdelay == old(slavelist[i].pdelay)
      ensures Matched(old(slavelist[..]), f) && LatchedTrue(f[i], t) && DelaysDone(old(slavelist[..]), f, i, base)
              && (i == 1 ==> old(slavelist[1]).pdelay == base) ==>
                DelaysDone(slavelist[..], f, i + 1, base)
    {
      ghost var a := slavelist[..];
      MeasureSlave(i, t);
      if Matched(a, f) && LatchedTrue(f[i], t) && DelaysDone(a, f, i, base) && (i == 1 ==> a[1].pdelay == base) {
        VisitedKeeps(a, slavelist[..], f, i, t, base);
      }
    }

    /** What is done for slave i: latch, and measure against the nearest ancestor with a clock. */
    method MeasureSlave(i: nat, t: Latched)
      requires Valid() && Rooted() && 1 <= i <= slavecount && slavelist[i].hasdc
      requires slavelist[i].consumedports == slavelist[i].activeports
      modifies slavelist
      ensures forall k :: 0 <= k <= slavecount ==>
                SameBus(slavelist[k], old(slavelist[k]))
                && slavelist[k].dcNext == old(slavelist[k]).dcNext
                   && slavelist[k].dcPrevious == old(slavelist[k]).dcPrevious
      ensures forall k :: i < k <= slavecount ==> slavelist[k] == old(slavelist[k])
      ensures slavelist[i].parent == 0 ==> slavelist[i].pdelay == old(slavelist[i].pdelay)
      ensures Visited(old(slavelist[..]), slavelist[..], i, t)
    {
      ghost var a := slavelist[..];
      Latch(i, t);
      var parent, child := DcParent(i);
      NearestClock(slavelist[..], parent, child, i);
      if parent > 0 {
        PropagationDelay(i, parent, child);
        ghost var b := slavelist[..];
        DelayIgnoresOwn(b[i], b[i].(pdelay := a[i].pdelay), b[parent], child, parent);
      }
    }

    /** Slave i has no clock: clear its readings, and if it ends a branch that started at a branch
        point without meeting a clock, consume that branch point's port. */
    method PassSlave(i: nat, hold: nat) returns (parenthold: nat)
      requires Valid() && Rooted() && 1 <= i <= slavecount && hold <= slavecount
      modifies slavelist
      ensures parenthold <= slavecount
      ensures var parent := old(slavelist[i].parent);
        var held := if parent > 0 && old(slavelist[parent].topology) > 2 then parent else hold;
        var consume := held != 0 && old(slavelist[i].topology) == 1;
        var cleared := old(slavelist[..])[i := old(slavelist[i]).(rtA := 0, rtB := 0, rtC := 0, rtD := 0)];
        && parenthold == (if consume then 0 else held)
        && slavelist[..] == if !consume then cleared
             else
               var ports := cleared[held].consumedports;
               cleared[held := cleared[held].(consumedports := ports - {FirstPort(ports)})]
    {
      parenthold := hold;
      slavelist[i] := slavelist[i].(rtA := 0, rtB := 0, rtC := 0, rtD := 0);
      var parent := slavelist[i].parent;
      if parent > 0 && slavelist[parent].topology > 2 {
        parenthold := parent;
      }
      if parenthold != 0 && slavelist[i].topology == 1 {
        var _ := ParentPort(parenthold);
        parenthold := 0;
      }
    }

    /** The round of the loop for a slave that has a clock. */
    method VisitClock(i: nat, t: Latched, prev: nat, ghost was: seq<SlaveInfo>, ghost f: seq<Node>,
                      ghost measured: bool)
      requires Valid() && 1 <= i <= slavecount && ParentsFirst(was) && was != []
      requires Progress(was, slavelist[..], i, prev, f, measured)
      requires measured ==> Matched(was, f) && LatchedTrue(f[i], t)
      requires slavelist[i].hasdc && slavelist[i].consumedports == slavelist[i].activeports
      modifies slavelist
      ensures Progress(was, slavelist[..], i + 1, i, f, measured)
    {
      ghost var z := slavelist[..];
      LinkDc(i, prev);
      ghost var a := slavelist[..];
      if measured { ChainKeepsDelays(z, a, f, i, was[1].pdelay); }
      VisitDcSlave(i, t, f, was[1].pdelay);
      ghost var b := slavelist[..];
      ChainStep(was, z, b, i, prev);
    }

    /** One round of the loop of ConfigDc. */
    method VisitSlave(i: nat, latched: seq<Latched>, prev: nat, hold: nat, ghost was: seq<SlaveInfo>,
                      ghost f: seq<Node>, ghost measured: bool)
      returns (prevDc: nat, parenthold: nat)
      requires Valid() && 1 <= i <= slavecount && |latched| == slavecount + 1 && hold <= slavecount && ParentsFirst(was)
               && was != []
      requires Progress(was, slavelist[..], i, prev, f, measured)
      requires measured ==> Matched(was, f) && AllLatched(f, latched)
      modifies slavelist
      ensures parenthold <= slavecount && Progress(was, slavelist[..], i + 1, prevDc, f, measured)
    {
      prevDc, parenthold := prev, hold;
      ghost var y := slavelist[..];
      slavelist[i] := slavelist[i].(consumedports := slavelist[i].activeports);
      ghost var z := slavelist[..];
      ChainKept(was, y, z, i);
      if measured { LaterKeepsDelays(y, z, f, i, was[1].pdelay); }
      if slavelist[i].hasdc {
        VisitClock(i, latched[i], prevDc, was, f, measured);
        parenthold := 0;
        prevDc := i;
      } else {
        parenthold := PassSlave(i, parenthold);
        ChainKept(was, z, slavelist[..], i);
      }
    }

    /** The loop of ConfigDc. */
    method VisitSlaves(latched: seq<Latched>, ghost was: seq<SlaveInfo>, ghost f: seq<Node>, ghost measured: bool)
      returns (prevDc: nat)
      requires Valid() && |latched| == slavecount + 1 && ParentsFirst(was)
      requires Progress(was, slavelist[..], 1, 0, f, measured)
      requires measured ==> Matched(was, f) && AllLatched(f, latched)
      modifies slavelist
      ensures Progress(was, slavelist[..], slavecount + 1, prevDc, f, measured)
    {
      var parenthold: nat := 0;
      prevDc := 0;
      var i := 1;
      while i <= slavecount
        invariant 1 <= i <= slavecount + 1 && parenthold <= slavecount
        invariant Progress(was, slavelist[..], i, prevDc, f, measured)
      {
        prevDc, parenthold := VisitSlave(i, latched, prevDc, parenthold, was, f, measured);
        i := i + 1;
      }
    }

    /** Locate the slaves with clocks, chain them, measure the propagation delays. `f` and `root`
        are the physical bus; nothing is assumed of them, they only say what the result means. */
    method ConfigDc(latched: seq<Latched>, ghost f: seq<Node>, ghost root: Slave) returns (found: bool)
      requires Valid() && Rooted() && |latched| == slavecount + 1
      modifies slavelist
      ensures forall k :: 1 <= k <= slavecount ==> SameBus(slavelist[k], old(slavelist[k]))
      ensures Chained(old(slavelist[..]), slavelist[..], slavecount + 1)
      ensures found <==> exists k :: 1 <= k <= slavecount && old(slavelist[k].hasdc)
      ensures slavecount >= 1 && Measured(old(slavelist[..]), latched, f, root) ==>
                AllExact(slavelist[..], f, old(slavelist[1].pdelay))
    {
      ghost var was := slavelist[..];
      ghost var measured := slavecount >= 1 && Measured(was, latched, f, root);
      slavelist[0] := slavelist[0].(hasdc := false);
      ProgressStart(was, slavelist[..], latched, f, root, measured);
      var prevDc := VisitSlaves(latched, was, f, measured);
      found := slavelist[0].hasdc;
      ProgressEnd(was, slavelist[..], prevDc, f, measured);
    }

    /** Topology discovery followed by delay measurement, on the registers of a real bus: from the
        open-port words alone it rebuilds the tree, and from unsynchronised readings the delays. */
    method DiscoverAndMeasure(status: seq<nat>, latched: seq<Latched>, ghost f: seq<Node>, ghost root: Slave)
      returns (found: bool)
      requires Valid() && |latched| == |status| == slavecount + 1
      modifies slavelist
      ensures Wired(old(slavelist[..]), status, latched, f, root) ==>
                && found && AllExact(slavelist[..], f, old(slavelist[1].pdelay))
                && forall k :: 1 <= k <= slavecount ==> slavelist[k].parent == f[k].parent
    {
      ghost var was := slavelist[..];
      ConfigTopology(status);
      if Wired(was, status, latched, f, root) {
        DiscoveredIsMeasured(was, slavelist[..], status, latched, f, root);
      }
      found := ConfigDc(latched, f, root);
    }
  }

  /** The registers of a real bus of clocks: the status word of each slave shows the ports it has in the tree,
      and the readings are true up to the offset of its clock. */
  ghost predicate Wired(list: seq<SlaveInfo>, status: seq<nat>, latched: seq<Latched>, f: seq<Node>, root: Slave) {
    && IsBus(f, root) && |f| == |list| == |status| == |latched|
    && forall k :: 1 <= k < |f| ==>
         list[k].hasdc && Shows(status[k], f[k].active) && LatchedTrue(f[k], latched[k])
  }

  /** What discovery leaves of such a bus is its tree. */
  lemma DiscoveredIsMeasured(was: seq<SlaveInfo>, now: seq<SlaveInfo>, status: seq<nat>, latched: seq<Latched>,
                             f: seq<Node>, root: Slave)
    requires Wired(was, status, latched, f, root) && |now| == |was|
    requires forall k :: 1 <= k < |now| ==>
      && now[k].hasdc == was[k].hasdc && now[k].activeports == LinkedPorts(status[k])
      && now[k].topology == Degree(LinkedPorts(status[k]))
    requires now[1].parent == 0 && forall k :: 2 <= k < |now| ==> IsScanResult(Counts(now), k, now[k].parent)
    ensures Measured(now, latched, f, root)
  {
    ShownForAll(status, f);
    ParentsAreTrue(now, f, root);
  }

  lemma ProgressStart(was: seq<SlaveInfo>, now: seq<SlaveInfo>, latched: seq<Latched>, f: seq<Node>, root: Slave,
                      measured: bool)
    requires |was| > 0 && now == was[0 := was[0].(hasdc := false)]
    requires measured ==> |was| > 1 && Measured(was, latched, f, root)
    ensures Progress(was, now, 1, 0, f, measured)
    ensures measured ==> Matched(was, f) && AllLatched(f, latched)
  {
    if measured { MeasuredMatches(was, latched, f, root); }
  }

  lemma ProgressEnd(was: seq<SlaveInfo>, now: seq<SlaveInfo>, prevDc: nat, f: seq<Node>, measured: bool)
    requires |was| > 0 && Progress(was, now, |was|, prevDc, f, measured)
    requires measured ==> |was| > 1 && Matched(was, f)
    ensures Chained(was, now, |was|) && forall k :: 1 <= k < |was| ==> SameBus(now[k], was[k])
    ensures now[0].hasdc <==> exists k :: 1 <= k < |was| && was[k].hasdc
    ensures measured ==> AllExact(now, f, was[1].pdelay)
  {
    PrevDcIsLast(was, |was|);
    if measured { AllVisited(now, f, was[1].pdelay); }
  }

  lemma ChainKeepsDelays(a: seq<SlaveInfo>, b: seq<SlaveInfo>, f: seq<Node>, i: nat, base: int)
    requires |a| == |b| == |f| && DelaysDone(a, f, i, base)
    requires forall j :: 1 <= j < |a| ==> SameButChain(b[j], a[j])
    ensures DelaysDone(b, f, i, base)
  {
    forall j {:trigger b[j]} | 1 <= j < i && j < |f|
      ensures DelayDone(b, f, j, i, base)
    {
      assert DelayDone(a, f, j, i, base);
      assert forall q: Port :: PortTime(b[j], q) == PortTime(a[j], q);
    }
  }

  lemma ChainStep(was: seq<SlaveInfo>, a: seq<SlaveInfo>, b: seq<SlaveInfo>, i: nat, prev: nat)
    requires 1 <= i < |was| == |a| == |b| && Chained(was, a, i) && prev == PrevDc(was, i) && was[i].hasdc
    requires b[0].hasdc && b[prev].dcNext == i && b[i].dcPrevious == prev
    requires forall k :: 0 <= k < |a| && k != prev ==> b[k].dcNext == a[k].dcNext
    requires forall k :: 1 <= k < |a| && k != i ==> b[k].dcPrevious == a[k].dcPrevious
    ensures Chained(was, b, i + 1)
  {
    PrevDcIsLast(was, i);
    forall k {:trigger Linked(was, b, k)} | 1 <= k < i && was[k].hasdc
      ensures Linked(was, b, k)
    {
      assert Linked(was, a, k);
    }
  }

  lemma ChainKept(was: seq<SlaveInfo>, a: seq<SlaveInfo>, b: seq<SlaveInfo>, i: nat)
    requires 0 < |was| == |a| == |b| && i <= |was| && Chained(was, a, i) && a[0].hasdc == b[0].hasdc
    requires forall k :: 0 <= k < |a| ==> b[k].dcNext == a[k].dcNext && b[k].dcPrevious == a[k].dcPrevious
    ensures Chained(was, b, i)
  {
    forall k {:trigger Linked(was, b, k)} | 1 <= k < i && was[k].hasdc
      ensures Linked(was, b, k)
    {
      assert Linked(was, a, k);
    }
  }

  lemma LaterKeepsDelays(a: seq<SlaveInfo>, b: seq<SlaveInfo>, f: seq<Node>, i: nat, base: int)
    requires |a| == |b| == |f| && DelaysDone(a, f, i, base)
    requires forall j :: 1 <= j < i && j < |a| ==> b[j] == a[j]
    ensures DelaysDone(b, f, i, base)
  {
    forall j {:trigger b[j]} | 1 <= j < i && j < |f|
      ensures DelayDone(b, f, j, i, base)
    {
      assert DelayDone(a, f, j, i, base);
    }
  }

  /** The result for a bus of clocks: every delay is the true travel time from slave 1 (whose own
      entry is left at `base`), every port of a slave was consumed exactly once. */
  ghost predicate AllExact(list: seq<SlaveInfo>, f: seq<Node>, base: int) {
    |list| == |f| && forall k :: 1 <= k < |f| ==>
      && list[k].pdelay == base + f[k].arrival && list[k].consumedports == {}
      && (k >= 2 ==> list[k].parentport == f[k].port)
  }

  lemma AllVisited(list: seq<SlaveInfo>, f: seq<Node>, base: int)
    requires Matched(list, f) && DelaysDone(list, f, |f|, base)
    ensures AllExact(list, f, base)
  {
    forall k {:trigger list[k]} | 1 <= k < |f|
      ensures list[k].pdelay == base + f[k].arrival && list[k].consumedports == {}
      ensures k >= 2 ==> list[k].parentport == f[k].port
    {
      assert DelayDone(list, f, k, |f|, base) && DownOk(f, k);
    }
  }

  lemma ParentsAreTrue(list: seq<SlaveInfo>, f: seq<Node>, root: Slave)
    requires IsBus(f, root) && |f| == |list|
    requires forall k :: 1 <= k < |f| ==> list[k].topology == Degree(f[k].active)
    requires list[1].parent == 0
    requires forall k :: 2 <= k < |f| ==> IsScanResult(Counts(list), k, list[k].parent)
    ensures forall k :: 1 <= k < |f| ==> list[k].parent == f[k].parent
  {
    BusFacts(f, root);
    var t := Counts(list)[0 := Degree(f[0].active)];
    forall k | 2 <= k < |f|
      ensures list[k].parent == f[k].parent
    {
      assert IsScanResult(Counts(list), k, list[k].parent);
      ScanReads(Counts(list), t, k, list[k].parent);
      ScanFindsParent(root, f, t, k, list[k].parent);
    }
  }

  function Counts(list: seq<SlaveInfo>): seq<nat> {
    seq(|list|, k requires 0 <= k < |list| => list[k].topology)
  }

  lemma MeasuredMatches(list: seq<SlaveInfo>, latched: seq<Latched>, f: seq<Node>, root: Slave)
    requires Measured(list, latched, f, root)
    ensures Matched(list, f) && AllLatched(f, latched)
  {
    BusFacts(f, root);
    forall k | 1 <= k < |f|
      ensures f[k].active <= {0, 1, 2, 3} && LatchedTrue(f[k], latched[k])
    {
    }
  }

  /** The scan of a slave reads only slaves before it, never the master's entry. */
  lemma {:induction false} BalanceReads(a: seq<nat>, b: seq<nat>, lo: nat, hi: nat)
    requires 1 <= lo <= hi <= |a| && |a| == |b| && forall k :: 1 <= k < hi ==> a[k] == b[k]
    ensures Balance(a, lo, hi) == Balance(b, lo, hi)
    decreases hi - lo
  {
    if lo < hi { BalanceReads(a, b, lo + 1, hi); }
  }

  lemma ScanReads(a: seq<nat>, b: seq<nat>, slave: nat, parent: nat)
    requires slave <= |a| == |b| && forall k :: 1 <= k < slave ==> a[k] == b[k]
    requires IsScanResult(a, slave, parent)
    ensures IsScanResult(b, slave, parent)
  {
    forall c | parent <= c < slave
      ensures Stops(a, c, slave) == Stops(b, c, slave)
    {
      BalanceReads(a, b, c, slave);
    }
  }
}
