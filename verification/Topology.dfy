/** The physical bus as a tree of slaves, its preorder numbering, and the parent search of
    ecx_config_init, which rebuilds the tree from nothing but the number of open ports. */
module Topology {

  type Port = p: nat | p < 4

  /** What hangs on a port of a slave: nothing, or a cable with its one-way delay and the next slave. */
  datatype Link = Open | Cable(delay: nat, slave: Slave)

  /** A slave entered at port 0. The frame leaves through the ports in the order 3, 1, 2.
      `clock` is the slave's own clock when the frame enters slave 1. */
  datatype Slave = Slave(clock: int, port3: Link, port1: Link, port2: Link)

  function Size(s: Slave): (n: nat)
    ensures n >= 1
  {
    1 + LinkSize(s.port3) + LinkSize(s.port1) + LinkSize(s.port2)
  }

  function LinkSize(l: Link): nat {
    if l.Open? then 0 else Size(l.slave)
  }

  /** Time between the frame entering a slave and leaving it again, all its branches included. */
  function Trip(s: Slave): nat {
    LinkTrip(s.port3) + LinkTrip(s.port1) + LinkTrip(s.port2)
  }

  function LinkTrip(l: Link): nat {
    if l.Open? then 0 else 2 * l.delay + Trip(l.slave)
  }

  /** What is true of one numbered slave: who its parent is and on which port of the parent it
      hangs, which ports are open, when the frame really arrives (`arrival`) and really comes back
      at each port, and which slave hangs on each port (0 for none). */
  datatype Node = Node(parent: nat, port: Port, active: set<Port>, clock: int, arrival: int,
                       back3: int, back1: int, back2: int, child3: nat, child1: nat, child2: nat)

  function Child(n: Node, p: Port): nat {
    if p == 3 then n.child3 else if p == 1 then n.child1 else if p == 2 then n.child2 else 0
  }

  /** True time of the frame at a port: arrival at port 0, return at the others. */
  function Time(n: Node, p: Port): int {
    if p == 3 then n.back3 else if p == 1 then n.back1 else if p == 2 then n.back2 else n.arrival
  }

  function ActivePorts(s: Slave): set<Port> {
    {0} + (if s.port3.Cable? then {3} else {}) + (if s.port1.Cable? then {1} else {})
    + (if s.port2.Cable? then {2} else {})
  }

  /** First numbers of the three branches of slave `self`: branches are numbered one after the other. */
  function Start3(s: Slave, self: nat): nat { self + 1 }
  function Start1(s: Slave, self: nat): nat { self + 1 + LinkSize(s.port3) }
  function Start2(s: Slave, self: nat): nat { self + 1 + LinkSize(s.port3) + LinkSize(s.port1) }

  function Head(s: Slave, self: nat, parent: nat, port: Port, arrival: int): Node {
    var back3 := arrival + LinkTrip(s.port3);
    var back1 := back3 + LinkTrip(s.port1);
    var back2 := back1 + LinkTrip(s.port2);
    Node(parent, port, ActivePorts(s), s.clock, arrival, back3, back1, back2,
         if s.port3.Open? then 0 else Start3(s, self),
         if s.port1.Open? then 0 else Start1(s, self),
         if s.port2.Open? then 0 else Start2(s, self))
  }

  /** `f` holds the preorder numbering of the tree below `s` from number `self` on. */
  ghost predicate Numbered(f: seq<Node>, s: Slave, self: nat, parent: nat, port: Port, arrival: int)
    decreases s
  {
    && self + Size(s) <= |f|
    && f[self] == Head(s, self, parent, port, arrival)
    && LinkNumbered(f, s.port3, Start3(s, self), self, 3, arrival)
    && LinkNumbered(f, s.port1, Start1(s, self), self, 1, f[self].back3)
    && LinkNumbered(f, s.port2, Start2(s, self), self, 2, f[self].back1)
  }

  ghost predicate LinkNumbered(f: seq<Node>, l: Link, self: nat, parent: nat, port: Port, start: int)
    decreases l
  {
    l.Cable? ==> Numbered(f, l.slave, self, parent, port, start + l.delay)
  }

  /** `f` is the whole bus: entry 0 stands for the master, entry k is slave k. */
  ghost predicate IsBus(f: seq<Node>, root: Slave) {
    |f| == Size(root) + 1 && f[0].active == {} && Numbered(f, root, 1, 0, 0, 0)
  }

  /** Number of open ports, the `topology` of the slave list. */
  function Degree(active: set<Port>): nat {
    (if 0 in active then 1 else 0) + (if 1 in active then 1 else 0)
    + (if 2 in active then 1 else 0) + (if 3 in active then 1 else 0)
  }

  /** Port a frame came back on before it reached `p`: the code's order is 0 - 3 - 1 - 2 - 0,
      closed ports skipped. */
  function PrevPort(active: set<Port>, p: Port): Port {
    if p == 0 then
      if 2 in active then 2 else if 1 in active then 1 else if 3 in active then 3 else p
    else if p == 1 then
      if 3 in active then 3 else if 0 in active then 0 else if 2 in active then 2 else p
    else if p == 2 then
      if 1 in active then 1 else if 3 in active then 3 else if 0 in active then 0 else p
    else
      if 0 in active then 0 else if 2 in active then 2 else if 1 in active then 1 else p
  }

  // ----- local facts of the numbering

  /** Facts of branch port p of slave k. */
  ghost predicate BranchOk(f: seq<Node>, k: nat, p: Port)
    requires k < |f|
  {
    && (p in f[k].active <==> Child(f[k], p) != 0)
    && (p in f[k].active ==>
          k < Child(f[k], p) < |f| && f[Child(f[k], p)].parent == k && f[Child(f[k], p)].port == p)
  }

  /** Facts of slave k looking down at its branches. */
  ghost predicate DownOk(f: seq<Node>, k: nat)
    requires k < |f|
  {
    var n := f[k];
    && 0 in n.active && BranchOk(f, k, 3) && BranchOk(f, k, 1) && BranchOk(f, k, 2)
    && (3 in n.active && 1 in n.active ==> n.child3 < n.child1)
    && (1 in n.active && 2 in n.active ==> n.child1 < n.child2)
    && (3 in n.active && 2 in n.active ==> n.child3 < n.child2)
    && Time(n, PrevPort(n.active, 0)) == n.back2
    && n.arrival <= n.back3 <= n.back1 <= n.back2
  }

  /** Facts of slave k looking up at its parent. */
  ghost predicate UpOk(f: seq<Node>, k: nat)
    requires k < |f|
  {
    var n := f[k];
    && 0 < n.parent < k
    && n.port != 0 && n.port in f[n.parent].active
    && Child(f[n.parent], n.port) == k
    && (var before := Time(f[n.parent], PrevPort(f[n.parent].active, n.port));
        && before <= n.arrival
        && Time(f[n.parent], n.port) == n.arrival + (n.back2 - n.arrival) + (n.arrival - before)
        && (k == n.parent + 1 ==> before == f[n.parent].arrival))
  }

  lemma LinkHead(f: seq<Node>, l: Link, self: nat, parent: nat, port: Port, start: int)
    requires LinkNumbered(f, l, self, parent, port, start) && l.Cable?
    ensures self < |f| && f[self].parent == parent && f[self].port == port
  {
  }

  lemma HeadDown(f: seq<Node>, s: Slave, self: nat, parent: nat, port: Port, arrival: int)
    requires Numbered(f, s, self, parent, port, arrival)
    ensures DownOk(f, self)
  {
    if s.port3.Cable? { LinkHead(f, s.port3, Start3(s, self), self, 3, arrival); }
    if s.port1.Cable? { LinkHead(f, s.port1, Start1(s, self), self, 1, f[self].back3); }
    if s.port2.Cable? { LinkHead(f, s.port2, Start2(s, self), self, 2, f[self].back1); }
  }

  /** Every slave of the tree has true local facts; all but the topmost also look up correctly. */
  lemma {:induction false} LocalFacts(f: seq<Node>, s: Slave, self: nat, parent: nat, port: Port, arrival: int)
    requires Numbered(f, s, self, parent, port, arrival) && self > 0
    ensures forall k :: self <= k < self + Size(s) ==> DownOk(f, k)
    ensures forall k :: self < k < self + Size(s) ==> UpOk(f, k)
    decreases s
  {
    HeadDown(f, s, self, parent, port, arrival);
    LinkFacts(f, s.port3, Start3(s, self), self, 3, arrival);
    LinkFacts(f, s.port1, Start1(s, self), self, 1, f[self].back3);
    LinkFacts(f, s.port2, Start2(s, self), self, 2, f[self].back1);
  }

  lemma {:induction false} LinkFacts(f: seq<Node>, l: Link, self: nat, parent: nat, port: Port, start: int)
    requires LinkNumbered(f, l, self, parent, port, start) && 0 < parent < self && self + LinkSize(l) <= |f|
    requires port != 0 && (l.Cable? ==> port in f[parent].active && Child(f[parent], port) == self)
    requires Time(f[parent], PrevPort(f[parent].active, port)) == start
    requires Time(f[parent], port) == start + LinkTrip(l)
    requires self == parent + 1 ==> start == f[parent].arrival
    ensures forall k :: self <= k < self + LinkSize(l) ==> DownOk(f, k) && UpOk(f, k)
    decreases l
  {
    if l.Cable? {
      assert UpOk(f, self);
      LocalFacts(f, l.slave, self, parent, port, start + l.delay);
    }
  }

  /** The numbering of a whole bus. */
  lemma BusFacts(f: seq<Node>, root: Slave)
    requires IsBus(f, root)
    ensures forall k :: 1 <= k < |f| ==> DownOk(f, k)
    ensures forall k :: 2 <= k < |f| ==> UpOk(f, k)
    ensures |f| > 1 && f[1].parent == 0 && f[1].arrival == 0
  {
    LocalFacts(f, root, 1, 0, 0, 0);
  }

  // ----- the backward scan

  /** Contribution of one slave to the counter of the scan. */
  function Weight(topology: nat): int {
    if topology == 1 then -1 else if topology == 3 then 1 else if topology == 4 then 2 else 0
  }

  /** Value of the counter after scanning slaves hi-1 down to lo. */
  function Balance(topology: seq<nat>, lo: nat, hi: nat): int
    requires lo <= hi <= |topology|
    decreases hi - lo
  {
    if lo == hi then 0 else Weight(topology[lo]) + Balance(topology, lo + 1, hi)
  }

  ghost predicate Stops(topology: seq<nat>, c: nat, slave: nat)
    requires c < slave <= |topology|
  {
    Balance(topology, c, slave) >= 0 && topology[c] > 1
  }

  /** What the scan computes, for any topology list at all: the nearest earlier slave where the
      counter is not negative and that is no end point, or slave 1. */
  ghost predicate IsScanResult(topology: seq<nat>, slave: nat, parent: nat)
    requires slave <= |topology|
  {
    && 1 <= parent < slave
    && (parent == 1 || Stops(topology, parent, slave))
    && forall c :: parent < c < slave ==> !Stops(topology, c, slave)
  }

  lemma {:induction false} BalanceSplits(topology: seq<nat>, lo: nat, mid: nat, hi: nat)
    requires lo <= mid <= hi <= |topology|
    ensures Balance(topology, lo, hi) == Balance(topology, lo, mid) + Balance(topology, mid, hi)
    decreases mid - lo
  {
    if lo < mid { BalanceSplits(topology, lo + 1, mid, hi); }
  }

  ghost predicate Matches(topology: seq<nat>, f: seq<Node>) {
    |topology| == |f| && forall k :: 0 <= k < |f| ==> topology[k] == Degree(f[k].active)
  }

  /** Every part of [lo, hi) that reaches its end lowers the counter. */
  ghost predicate Negative(t: seq<nat>, lo: nat, hi: nat)
    requires lo <= hi <= |t|
  {
    forall c :: lo <= c < hi ==> Below(t, c, hi)
  }

  ghost predicate Below(t: seq<nat>, c: nat, hi: nat)
    requires c <= hi <= |t|
  {
    Balance(t, c, hi) < 0
  }

  lemma NegativeJoins(t: seq<nat>, lo: nat, mid: nat, hi: nat)
    requires lo <= mid <= hi <= |t|
    requires Negative(t, lo, mid) && Negative(t, mid, hi)
    ensures Negative(t, lo, hi)
    ensures Balance(t, lo, hi) == Balance(t, lo, mid) + Balance(t, mid, hi)
  {
    BalanceSplits(t, lo, mid, hi);
    if mid < hi { assert Below(t, mid, hi); }
    forall c | lo <= c < mid
      ensures Below(t, c, hi)
    {
      assert Below(t, c, mid);
      BalanceSplits(t, c, mid, hi);
    }
  }

  lemma HeadWeight(t: seq<nat>, f: seq<Node>, s: Slave, self: nat, parent: nat, port: Port, arrival: int)
    requires Matches(t, f) && Numbered(f, s, self, parent, port, arrival)
    ensures t[self] == Branches(s) + 1 && Weight(t[self]) == Branches(s) - 1
  {
  }

  function Branches(s: Slave): nat {
    (if s.port3.Cable? then 1 else 0) + (if s.port1.Cable? then 1 else 0) + (if s.port2.Cable? then 1 else 0)
  }

  /** A complete branch lowers the counter by exactly one. */
  lemma {:induction false} BranchBalance(t: seq<nat>, f: seq<Node>, s: Slave, self: nat, parent: nat, port: Port,
                                         arrival: int)
    requires Matches(t, f) && Numbered(f, s, self, parent, port, arrival)
    ensures Balance(t, self, self + Size(s)) == -1 && Negative(t, self, self + Size(s))
    decreases s
  {
    var i3, i1, i2, end := Start3(s, self), Start1(s, self), Start2(s, self), self + Size(s);
    LinkBalance(t, f, s.port3, i3, self, 3, arrival);
    LinkBalance(t, f, s.port1, i1, self, 1, f[self].back3);
    LinkBalance(t, f, s.port2, i2, self, 2, f[self].back1);
    HeadWeight(t, f, s, self, parent, port, arrival);
    BranchesJoin(t, self, i3, i1, i2, end);
  }

  /** A slave and its three branches, together one branch. */
  lemma BranchesJoin(t: seq<nat>, self: nat, i3: nat, i1: nat, i2: nat, end: nat)
    requires self + 1 == i3 <= i1 <= i2 <= end <= |t|
    requires Negative(t, i3, i1) && Negative(t, i1, i2) && Negative(t, i2, end)
    requires Weight(t[self]) + Balance(t, i3, i1) + Balance(t, i1, i2) + Balance(t, i2, end) == -1
    ensures Balance(t, self, end) == -1 && Negative(t, self, end)
  {
    JoinThree(t, i3, i1, i2, end);
    HeadJoins(t, self, end);
  }

  lemma JoinThree(t: seq<nat>, a: nat, b: nat, c: nat, d: nat)
    requires a <= b <= c <= d <= |t| && Negative(t, a, b) && Negative(t, b, c) && Negative(t, c, d)
    ensures Negative(t, a, d) && Balance(t, a, d) == Balance(t, a, b) + Balance(t, b, c) + Balance(t, c, d)
  {
    NegativeJoins(t, a, b, c);
    NegativeJoins(t, a, c, d);
  }

  lemma HeadJoins(t: seq<nat>, self: nat, end: nat)
    requires self < end <= |t| && Negative(t, self + 1, end) && Weight(t[self]) + Balance(t, self + 1, end) == -1
    ensures Balance(t, self, end) == -1 && Negative(t, self, end)
  {
  }

  lemma {:induction false} LinkBalance(t: seq<nat>, f: seq<Node>, l: Link, self: nat, parent: nat, port: Port,
                                       start: int)
    requires Matches(t, f) && LinkNumbered(f, l, self, parent, port, start) && self + LinkSize(l) <= |f|
    ensures Balance(t, self, self + LinkSize(l)) == if l.Open? then 0 else -1
    ensures Negative(t, self, self + LinkSize(l))
    decreases l
  {
    if l.Cable? { BranchBalance(t, f, l.slave, self, parent, port, start + l.delay); }
  }

  /** Between a slave and its parent the counter stays negative, and at the parent it is not. */
  ghost predicate ScanOk(t: seq<nat>, f: seq<Node>, k: nat)
    requires |t| == |f| && k < |f|
  {
    f[k].parent < k && Stops(t, f[k].parent, k) && Negative(t, f[k].parent + 1, k)
  }

  lemma {:induction false} BranchScan(t: seq<nat>, f: seq<Node>, s: Slave, self: nat, parent: nat, port: Port,
                                      arrival: int)
    requires Matches(t, f) && Numbered(f, s, self, parent, port, arrival)
    ensures forall k :: self < k < self + Size(s) ==> ScanOk(t, f, k)
    decreases s
  {
    var i3, i1, i2 := Start3(s, self), Start1(s, self), Start2(s, self);
    LinkBalance(t, f, s.port3, i3, self, 3, arrival);
    LinkBalance(t, f, s.port1, i1, self, 1, f[self].back3);
    NegativeJoins(t, i3, i1, i2);
    LinkScan(t, f, s.port3, i3, self, 3, arrival);
    LinkScan(t, f, s.port1, i1, self, 1, f[self].back3);
    LinkScan(t, f, s.port2, i2, self, 2, f[self].back1);
  }

  lemma {:induction false} LinkScan(t: seq<nat>, f: seq<Node>, l: Link, self: nat, parent: nat, port: Port, start: int)
    requires Matches(t, f) && LinkNumbered(f, l, self, parent, port, start) && parent < self
             && self + LinkSize(l) <= |f|
    requires l.Cable? ==> Stops(t, parent, self)
    requires Negative(t, parent + 1, self)
    ensures forall k :: self <= k < self + LinkSize(l) ==> ScanOk(t, f, k)
    decreases l
  {
    if l.Cable? { BranchScan(t, f, l.slave, self, parent, port, start + l.delay); }
  }

  /** Tree reconstruction: on the port counts of any tree of slaves numbered in preorder, the scan
      of every slave finds that slave's true parent, and nothing else satisfies its result. */
  lemma ScanFindsParent(root: Slave, f: seq<Node>, topology: seq<nat>, slave: nat, parent: nat)
    requires IsBus(f, root) && Matches(topology, f) && 2 <= slave < |topology|
    ensures IsScanResult(topology, slave, parent) <==> parent == f[slave].parent
  {
    BranchScan(topology, f, root, 1, 0, 0, 0);
    BusFacts(f, root);
    assert ScanOk(topology, f, slave) && UpOk(f, slave);
    var p := f[slave].parent;
    assert Stops(topology, p, slave);
    forall c | p < c < slave ensures !Stops(topology, c, slave) {
      assert Below(topology, c, slave);
    }
  }

  // ----- every tree has a numbering

  /** `f` with the branch below `s` appended, numbered in the order of the visit. */
  ghost function Append(f: seq<Node>, s: Slave, parent: nat, port: Port, arrival: int): (g: seq<Node>)
    ensures |g| == |f| + Size(s) && f <= g
    decreases s
  {
    var self := |f|;
    var h := Head(s, self, parent, port, arrival);
    var g3 := AppendLink(f + [h], s.port3, self, 3, arrival);
    var g1 := AppendLink(g3, s.port1, self, 1, h.back3);
    AppendLink(g1, s.port2, self, 2, h.back1)
  }

  ghost function AppendLink(f: seq<Node>, l: Link, parent: nat, port: Port, start: int): (g: seq<Node>)
    ensures |g| == |f| + LinkSize(l) && f <= g
    decreases l
  {
    if l.Open? then f else Append(f, l.slave, parent, port, start + l.delay)
  }

  lemma {:induction false} NumberedExtends(f: seq<Node>, g: seq<Node>, s: Slave, self: nat, parent: nat, port: Port,
                                           arrival: int)
    requires Numbered(f, s, self, parent, port, arrival) && f <= g
    ensures Numbered(g, s, self, parent, port, arrival)
    decreases s
  {
    if s.port3.Cable? { NumberedExtends(f, g, s.port3.slave, Start3(s, self), self, 3, arrival + s.port3.delay); }
    if s.port1.Cable? { NumberedExtends(f, g, s.port1.slave, Start1(s, self), self, 1, f[self].back3 + s.port1.delay); }
    if s.port2.Cable? { NumberedExtends(f, g, s.port2.slave, Start2(s, self), self, 2, f[self].back1 + s.port2.delay); }
  }

  lemma {:induction false} AppendNumbers(f: seq<Node>, s: Slave, parent: nat, port: Port, arrival: int)
    ensures Numbered(Append(f, s, parent, port, arrival), s, |f|, parent, port, arrival)
    decreases s
  {
    var self := |f|;
    var h := Head(s, self, parent, port, arrival);
    var g3 := AppendLink(f + [h], s.port3, self, 3, arrival);
    var g1 := AppendLink(g3, s.port1, self, 1, h.back3);
    var g := AppendLink(g1, s.port2, self, 2, h.back1);
    assert g == Append(f, s, parent, port, arrival);
    assert f + [h] <= g3 <= g1 <= g;
    assert g[self] == (f + [h])[self] == h;
    assert LinkNumbered(g, s.port3, Start3(s, self), self, 3, arrival) by {
      LinkAppendNumbers(f + [h], g, s.port3, self, 3, arrival);
    }
    assert LinkNumbered(g, s.port1, Start1(s, self), self, 1, h.back3) by {
      LinkAppendNumbers(g3, g, s.port1, self, 1, h.back3);
    }
    assert LinkNumbered(g, s.port2, Start2(s, self), self, 2, h.back1) by {
      LinkAppendNumbers(g1, g, s.port2, self, 2, h.back1);
    }
  }

  lemma {:induction false} LinkAppendNumbers(f: seq<Node>, g: seq<Node>, l: Link, parent: nat, port: Port, start: int)
    requires AppendLink(f, l, parent, port, start) <= g
    ensures LinkNumbered(g, l, |f|, parent, port, start)
    decreases l
  {
    if l.Cable? {
      AppendNumbers(f, l.slave, parent, port, start + l.delay);
      NumberedExtends(AppendLink(f, l, parent, port, start), g, l.slave, |f|, parent, port, start + l.delay);
    }
  }

  lemma BusExists(root: Slave) returns (f: seq<Node>)
    ensures IsBus(f, root)
  {
    var master := [Node(0, 0, {}, 0, 0, 0, 0, 0, 0, 0, 0)];
    f := Append(master, root, 0, 0, 0);
    AppendNumbers(master, root, 0, 0, 0);
  }
}
